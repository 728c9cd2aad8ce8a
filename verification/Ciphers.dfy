// Cipher decryption as error propagation, and the two ways of reading a decrypted cipher:
// one property (`extract_property`) and the whole item (`to_secret_document`).

module Ciphers {
  import opened Prelude
  import opened Text
  import opened Errors
  import opened EncryptedStrings

  /**
   * The library primitives: authenticated decryption of a parsed encrypted string, and UTF-8
   * decoding. Nothing is assumed of them beyond being functions.
   */
  datatype Primitives = Primitives(
    decryptBytes: (EncryptedString, SymmetricKey) -> Result<seq<Byte>, CryptoError>,
    utf8: seq<Byte> -> Option<string>)

  datatype EncryptedField = EncryptedField(name: Option<string>, value: Option<string>)
  datatype EncryptedLogin = EncryptedLogin(username: Option<string>, password: Option<string>, totp: Option<string>)
  datatype EncryptedSshKey =
    EncryptedSshKey(privateKey: Option<string>, publicKey: Option<string>, keyFingerprint: Option<string>)

  datatype EncryptedCipher = EncryptedCipher(
    id: string,
    organizationId: Option<string>,
    deletedDate: Option<string>,
    key: Option<string>,
    name: Option<string>,
    notes: Option<string>,
    fields: seq<EncryptedField>,
    login: Option<EncryptedLogin>,
    sshKey: Option<EncryptedSshKey>)

  datatype DecryptedField = DecryptedField(name: Option<string>, value: Option<string>)
  datatype DecryptedLogin = DecryptedLogin(username: Option<string>, password: Option<string>, totp: Option<string>)
  datatype DecryptedSshKey =
    DecryptedSshKey(privateKey: Option<string>, publicKey: Option<string>, keyFingerprint: Option<string>)

  datatype DecryptedCipher = DecryptedCipher(
    id: string,
    organizationId: Option<string>,
    name: Option<string>,
    notes: Option<string>,
    fields: seq<DecryptedField>,
    login: Option<DecryptedLogin>,
    sshKey: Option<DecryptedSshKey>)

  // ---------- Decryption ----------

  function Lift<T>(r: Result<T, CryptoError>): Result<T, CipherError> {
    match r
    case Ok(v) => Ok(v)
    case Err(e) => Err(CryptoFailure(e))
  }

  function DecryptText(prim: Primitives, raw: string, key: SymmetricKey): Result<string, CipherError> {
    var parsed :- Lift(Parse(raw));
    var plain :- Lift(prim.decryptBytes(parsed, key));
    match prim.utf8(plain)
    case None => Err(CryptoFailure(InvalidUtf8))
    case Some(text) => Ok(text)
  }

  function DecryptOptional(prim: Primitives, raw: Option<string>, key: SymmetricKey): Result<Option<string>, CipherError> {
    match raw
    case None => Ok(None)
    case Some(s) =>
      var text :- DecryptText(prim, s, key);
      Ok(Some(text))
  }

  /** The per-cipher key, unwrapped with the user key when the cipher carries one. */
  function CipherKey(prim: Primitives, cipher: EncryptedCipher, userKey: SymmetricKey): Result<SymmetricKey, CipherError> {
    match cipher.key
    case None => Ok(userKey)
    case Some(wrapped) =>
      var parsed :- Lift(Parse(wrapped));
      var plain :- Lift(prim.decryptBytes(parsed, userKey));
      Lift(KeyFromBytes(plain))
  }

  function DecryptFields(prim: Primitives, fields: seq<EncryptedField>, key: SymmetricKey):
    Result<seq<DecryptedField>, CipherError>
  {
    if fields == [] then Ok([])
    else
      var name :- DecryptOptional(prim, fields[0].name, key);
      var value :- DecryptOptional(prim, fields[0].value, key);
      var rest :- DecryptFields(prim, fields[1..], key);
      Ok([DecryptedField(name, value)] + rest)
  }

  function DecryptLogin(prim: Primitives, login: Option<EncryptedLogin>, key: SymmetricKey):
    Result<Option<DecryptedLogin>, CipherError>
  {
    match login
    case None => Ok(None)
    case Some(l) =>
      var username :- DecryptOptional(prim, l.username, key);
      var password :- DecryptOptional(prim, l.password, key);
      var totp :- DecryptOptional(prim, l.totp, key);
      Ok(Some(DecryptedLogin(username, password, totp)))
  }

  function DecryptSshKey(prim: Primitives, sshKey: Option<EncryptedSshKey>, key: SymmetricKey):
    Result<Option<DecryptedSshKey>, CipherError>
  {
    match sshKey
    case None => Ok(None)
    case Some(k) =>
      var privateKey :- DecryptOptional(prim, k.privateKey, key);
      var publicKey :- DecryptOptional(prim, k.publicKey, key);
      var fingerprint :- DecryptOptional(prim, k.keyFingerprint, key);
      Ok(Some(DecryptedSshKey(privateKey, publicKey, fingerprint)))
  }

  /** `EncryptedCipher::decrypt`. */
  function Decrypt(prim: Primitives, cipher: EncryptedCipher, userKey: SymmetricKey):
    Result<DecryptedCipher, CipherError>
  {
    var key :- CipherKey(prim, cipher, userKey);
    var name :- DecryptOptional(prim, cipher.name, key);
    var notes :- DecryptOptional(prim, cipher.notes, key);
    var fields :- DecryptFields(prim, cipher.fields, key);
    var login :- DecryptLogin(prim, cipher.login, key);
    var sshKey :- DecryptSshKey(prim, cipher.sshKey, key);
    Ok(DecryptedCipher(cipher.id, cipher.organizationId, name, notes, fields, login, sshKey))
  }

  /** The encrypted strings a cipher carries, in the order decryption visits them. */
  function Present(s: Option<string>): seq<string> {
    if s.Some? then [s.value] else []
  }

  function FieldTexts(fields: seq<EncryptedField>): seq<string> {
    if fields == [] then []
    else Present(fields[0].name) + Present(fields[0].value) + FieldTexts(fields[1..])
  }

  function LoginTexts(login: Option<EncryptedLogin>): seq<string> {
    if login.None? then []
    else Present(login.value.username) + Present(login.value.password) + Present(login.value.totp)
  }

  function SshTexts(sshKey: Option<EncryptedSshKey>): seq<string> {
    if sshKey.None? then []
    else Present(sshKey.value.privateKey) + Present(sshKey.value.publicKey) + Present(sshKey.value.keyFingerprint)
  }

  function Texts(cipher: EncryptedCipher): seq<string> {
    Present(cipher.name) + Present(cipher.notes) + FieldTexts(cipher.fields)
    + LoginTexts(cipher.login) + SshTexts(cipher.sshKey)
  }

  /** The first decryption error among `texts`, if any. */
  function FirstError(prim: Primitives, texts: seq<string>, key: SymmetricKey): Option<CipherError> {
    if texts == [] then None
    else
      match DecryptText(prim, texts[0], key)
      case Err(e) => Some(e)
      case Ok(_) => FirstError(prim, texts[1..], key)
  }

  lemma {:induction false} FirstErrorConcat(prim: Primitives, a: seq<string>, b: seq<string>, key: SymmetricKey)
    ensures FirstError(prim, a + b, key) ==
            if FirstError(prim, a, key).Some? then FirstError(prim, a, key) else FirstError(prim, b, key)
  {
    if a == [] {
      assert a + b == b;
    } else {
      assert (a + b)[1..] == a[1..] + b;
      FirstErrorConcat(prim, a[1..], b, key);
    }
  }

  lemma {:induction false} FirstErrorNone(prim: Primitives, texts: seq<string>, key: SymmetricKey)
    ensures FirstError(prim, texts, key).None? <==> forall s | s in texts :: DecryptText(prim, s, key).Ok?
  {
    if texts != [] {
      FirstErrorNone(prim, texts[1..], key);
      assert texts == [texts[0]] + texts[1..];
    }
  }

  lemma OptionalError(prim: Primitives, s: Option<string>, key: SymmetricKey)
    ensures FirstError(prim, Present(s), key) ==
            match DecryptOptional(prim, s, key) case Err(e) => Some(e) case Ok(_) => None
  {
  }

  lemma {:induction false} FieldsError(prim: Primitives, fields: seq<EncryptedField>, key: SymmetricKey)
    ensures FirstError(prim, FieldTexts(fields), key) ==
            match DecryptFields(prim, fields, key) case Err(e) => Some(e) case Ok(_) => None
  {
    if fields != [] {
      var f := fields[0];
      OptionalError(prim, f.name, key);
      OptionalError(prim, f.value, key);
      FieldsError(prim, fields[1..], key);
      FirstErrorConcat(prim, Present(f.name), Present(f.value), key);
      FirstErrorConcat(prim, Present(f.name) + Present(f.value), FieldTexts(fields[1..]), key);
    }
  }

  lemma ThreeError(prim: Primitives, a: Option<string>, b: Option<string>, c: Option<string>, key: SymmetricKey)
    ensures FirstError(prim, Present(a) + Present(b) + Present(c), key) ==
            if DecryptOptional(prim, a, key).Err? then Some(DecryptOptional(prim, a, key).error)
            else if DecryptOptional(prim, b, key).Err? then Some(DecryptOptional(prim, b, key).error)
            else if DecryptOptional(prim, c, key).Err? then Some(DecryptOptional(prim, c, key).error)
            else None
  {
    OptionalError(prim, a, key);
    OptionalError(prim, b, key);
    OptionalError(prim, c, key);
    FirstErrorConcat(prim, Present(a), Present(b), key);
    FirstErrorConcat(prim, Present(a) + Present(b), Present(c), key);
  }

  /** The text is what the bytes decrypted from the parsed string spell in UTF-8. */
  predicate ReadsText(prim: Primitives, key: SymmetricKey, raw: string, text: string) {
    && Parse(raw).Ok?
    && prim.decryptBytes(Parse(raw).value, key).Ok?
    && prim.utf8(prim.decryptBytes(Parse(raw).value, key).value) == Some(text)
  }

  predicate Readable(prim: Primitives, key: SymmetricKey, raw: string) {
    && Parse(raw).Ok?
    && prim.decryptBytes(Parse(raw).value, key).Ok?
    && prim.utf8(prim.decryptBytes(Parse(raw).value, key).value).Some?
  }

  /** Why a string cannot be read: it does not parse, does not decrypt, or is not UTF-8. */
  predicate IsTextFault(prim: Primitives, key: SymmetricKey, raw: string, e: CipherError) {
    var parsed := Parse(raw);
    if parsed.Err? then e == CryptoFailure(parsed.error)
    else if prim.decryptBytes(parsed.value, key).Err? then e == CryptoFailure(prim.decryptBytes(parsed.value, key).error)
    else prim.utf8(prim.decryptBytes(parsed.value, key).value).None? && e == CryptoFailure(InvalidUtf8)
  }

  /** Reading one encrypted string: its text exactly when it is readable, and otherwise the fault. */
  lemma DecryptTextExactly(prim: Primitives, raw: string, key: SymmetricKey)
    ensures forall text :: DecryptText(prim, raw, key) == Ok(text) <==> ReadsText(prim, key, raw, text)
    ensures DecryptText(prim, raw, key).Ok? <==> Readable(prim, key, raw)
    ensures forall e :: DecryptText(prim, raw, key) == Err(e) <==> IsTextFault(prim, key, raw, e)
  {
  }

  /**
   * The key under which a cipher's strings are encrypted: the account's own, or the two halves
   * of the 64 bytes that the account's key unwraps from the key the cipher carries.
   */
  predicate OwnKey(prim: Primitives, cipher: EncryptedCipher, userKey: SymmetricKey, key: SymmetricKey) {
    match cipher.key
    case None => key == userKey
    case Some(wrapped) =>
      && Parse(wrapped).Ok?
      && var raw := prim.decryptBytes(Parse(wrapped).value, userKey);
         raw.Ok? && |raw.value| == 64 && key == SymmetricKey(raw.value[..32], raw.value[32..])
  }

  /** Why a cipher has no key: the wrapped key does not parse, does not decrypt, or is not 64 bytes long. */
  predicate IsKeyFault(prim: Primitives, cipher: EncryptedCipher, userKey: SymmetricKey, e: CipherError) {
    cipher.key.Some?
    && var parsed := Parse(cipher.key.value);
       if parsed.Err? then e == CryptoFailure(parsed.error)
       else
         var raw := prim.decryptBytes(parsed.value, userKey);
         if raw.Err? then e == CryptoFailure(raw.error)
         else |raw.value| != 64 && e == CryptoFailure(InvalidKeyLength(|raw.value|))
  }

  lemma CipherKeyExactly(prim: Primitives, cipher: EncryptedCipher, userKey: SymmetricKey)
    ensures forall key :: CipherKey(prim, cipher, userKey) == Ok(key) <==> OwnKey(prim, cipher, userKey, key)
    ensures forall e :: CipherKey(prim, cipher, userKey) == Err(e) <==> IsKeyFault(prim, cipher, userKey, e)
  {
  }

  /**
   * A cipher decrypts exactly when it has a key of its own and every encrypted string it carries,
   * wherever it sits, can be read under that key. Otherwise the error is the fault of the key, or
   * of the first string that cannot be read: nothing that fails is ever treated as absent.
   */
  lemma DecryptsExactly(prim: Primitives, cipher: EncryptedCipher, userKey: SymmetricKey)
    ensures Decrypt(prim, cipher, userKey).Ok? <==>
            exists key :: OwnKey(prim, cipher, userKey, key) && forall s | s in Texts(cipher) :: Readable(prim, key, s)
    ensures forall e | IsKeyFault(prim, cipher, userKey, e) :: Decrypt(prim, cipher, userKey) == Err(e)
    ensures forall key, i, e | OwnKey(prim, cipher, userKey, key) && IsFirstFault(prim, key, Texts(cipher), i, e) ::
              Decrypt(prim, cipher, userKey) == Err(e)
  {
    CipherKeyExactly(prim, cipher, userKey);
    DecryptsUnderKey(prim, cipher, userKey);
    forall s, key ensures DecryptText(prim, s, key).Ok? <==> Readable(prim, key, s) {
      DecryptTextExactly(prim, s, key);
    }
    forall key, i, e | OwnKey(prim, cipher, userKey, key) && IsFirstFault(prim, key, Texts(cipher), i, e)
      ensures Decrypt(prim, cipher, userKey) == Err(e)
    {
      FirstFaultAt(prim, Texts(cipher), key, i, e);
    }
  }

  /** String `i` is the first that cannot be read, for this reason. */
  predicate IsFirstFault(prim: Primitives, key: SymmetricKey, texts: seq<string>, i: nat, e: CipherError) {
    && i < |texts| && IsTextFault(prim, key, texts[i], e)
    && forall j | 0 <= j < i :: Readable(prim, key, texts[j])
  }

  lemma {:induction false} FirstErrorAt(prim: Primitives, texts: seq<string>, key: SymmetricKey, i: nat, e: CipherError)
    requires i < |texts| && DecryptText(prim, texts[i], key) == Err(e)
    requires forall j | 0 <= j < i :: DecryptText(prim, texts[j], key).Ok?
    ensures FirstError(prim, texts, key) == Some(e)
  {
    if i > 0 {
      var rest := texts[1..];
      assert rest[i - 1] == texts[i];
      forall j | 0 <= j < i - 1 ensures DecryptText(prim, rest[j], key).Ok? {
        assert rest[j] == texts[j + 1];
      }
      FirstErrorAt(prim, rest, key, i - 1, e);
    }
  }

  lemma FirstFaultAt(prim: Primitives, texts: seq<string>, key: SymmetricKey, i: nat, e: CipherError)
    requires IsFirstFault(prim, key, texts, i, e)
    ensures FirstError(prim, texts, key) == Some(e)
  {
    DecryptTextExactly(prim, texts[i], key);
    forall j | 0 <= j < i ensures DecryptText(prim, texts[j], key).Ok? {
      DecryptTextExactly(prim, texts[j], key);
    }
    FirstErrorAt(prim, texts, key, i, e);
  }

  lemma DecryptsUnderKey(prim: Primitives, cipher: EncryptedCipher, userKey: SymmetricKey)
    ensures var key := CipherKey(prim, cipher, userKey);
            && (key.Err? ==> Decrypt(prim, cipher, userKey) == Err(key.error))
            && (key.Ok? ==>
                  match FirstError(prim, Texts(cipher), key.value)
                  case Some(e) => Decrypt(prim, cipher, userKey) == Err(e)
                  case None => Decrypt(prim, cipher, userKey).Ok?)
    ensures Decrypt(prim, cipher, userKey).Ok? <==>
            && CipherKey(prim, cipher, userKey).Ok?
            && forall s | s in Texts(cipher) :: DecryptText(prim, s, CipherKey(prim, cipher, userKey).value).Ok?
  {
    var k := CipherKey(prim, cipher, userKey);
    if k.Ok? {
      var key := k.value;
      OptionalError(prim, cipher.name, key);
      OptionalError(prim, cipher.notes, key);
      FieldsError(prim, cipher.fields, key);
      if cipher.login.Some? {
        ThreeError(prim, cipher.login.value.username, cipher.login.value.password, cipher.login.value.totp, key);
      }
      if cipher.sshKey.Some? {
        var ssh := cipher.sshKey.value;
        ThreeError(prim, ssh.privateKey, ssh.publicKey, ssh.keyFingerprint, key);
      }
      var a := Present(cipher.name) + Present(cipher.notes);
      FirstErrorConcat(prim, Present(cipher.name), Present(cipher.notes), key);
      FirstErrorConcat(prim, a, FieldTexts(cipher.fields), key);
      FirstErrorConcat(prim, a + FieldTexts(cipher.fields), LoginTexts(cipher.login), key);
      FirstErrorConcat(prim, a + FieldTexts(cipher.fields) + LoginTexts(cipher.login), SshTexts(cipher.sshKey), key);
      FirstErrorNone(prim, Texts(cipher), key);
    }
  }

  // ---------- One property ----------

  function Existing(property: string, value: Option<string>): Result<string, CipherError> {
    match value
    case Some(v) => Ok(v)
    case None => Err(MissingProperty(property))
  }

  /** The parts of a cipher that have reserved property names. */
  datatype Part = Name | Notes | Username | Password | Totp | PrivateKey | PublicKey | KeyFingerprint

  /** The part a property name stands for, or `None` for the name of a custom field. */
  function Reserved(property: string): Option<Part> {
    match property
    case "name" => Some(Name)
    case "notes" => Some(Notes)
    case "username" => Some(Username)
    case "login.username" => Some(Username)
    case "password" => Some(Password)
    case "login.password" => Some(Password)
    case "totp" => Some(Totp)
    case "login.totp" => Some(Totp)
    case "privateKey" => Some(PrivateKey)
    case "sshPrivateKey" => Some(PrivateKey)
    case "sshKey.privateKey" => Some(PrivateKey)
    case "publicKey" => Some(PublicKey)
    case "sshPublicKey" => Some(PublicKey)
    case "sshKey.publicKey" => Some(PublicKey)
    case "keyFingerprint" => Some(KeyFingerprint)
    case "sshKey.keyFingerprint" => Some(KeyFingerprint)
    case _ => None
  }

  function PartValue(c: DecryptedCipher, part: Part): Option<string> {
    match part
    case Name => c.name
    case Notes => c.notes
    case Username => if c.login.Some? then c.login.value.username else None
    case Password => if c.login.Some? then c.login.value.password else None
    case Totp => if c.login.Some? then c.login.value.totp else None
    case PrivateKey => if c.sshKey.Some? then c.sshKey.value.privateKey else None
    case PublicKey => if c.sshKey.Some? then c.sshKey.value.publicKey else None
    case KeyFingerprint => if c.sshKey.Some? then c.sshKey.value.keyFingerprint else None
  }

  function CustomName(property: string): string {
    match StripPrefix(property, "field.")
    case Some(name) => name
    case None =>
      match StripPrefix(property, "custom.")
      case Some(name) => name
      case None => property
  }

  function Named(fields: seq<DecryptedField>, name: string): seq<DecryptedField> {
    if fields == [] then []
    else (if fields[0].name == Some(name) then [fields[0]] else []) + Named(fields[1..], name)
  }

  function CustomLookup(fields: seq<DecryptedField>, name: string, property: string): Result<string, CipherError> {
    var matches := Named(fields, name);
    if |matches| > 1 then Err(DuplicateDocumentField(name))
    else if |matches| == 1 && matches[0].value.Some? then Ok(matches[0].value.value)
    else Err(MissingProperty(property))
  }

  /** `DecryptedCipher::extract_property`. */
  function ExtractProperty(c: DecryptedCipher, raw: string): Result<string, CipherError> {
    var property := Trim(raw);
    if property == "" then Err(BlankProperty)
    else if StartsWith(property, "attachment.") || StartsWith(property, "attachments.") then Err(UnsupportedAttachment)
    else
      match Reserved(property)
      case Some(part) => Existing(property, PartValue(c, part))
      case None => CustomLookup(c.fields, CustomName(property), property)
  }

  // ---------- The whole item ----------

  datatype SecretDocument = SecretDocument(data: map<string, string>, metadata: map<string, string>)

  datatype Entry = Entry(key: string, value: string)

  function EntryOf(key: string, value: Option<string>): seq<Entry> {
    if value.Some? then [Entry(key, value.value)] else []
  }

  /** The document key under which a whole-item read exposes a part (never the item's name). */
  function DocumentKey(part: Part): string
    requires part != Name
  {
    match part
    case Notes => "notes"
    case Username => "username"
    case Password => "password"
    case Totp => "totp"
    case PrivateKey => "privateKey"
    case PublicKey => "publicKey"
    case KeyFingerprint => "keyFingerprint"
  }

  lemma DocumentKeyReserved(part: Part)
    requires part != Name
    ensures Reserved(DocumentKey(part)) == Some(part)
    ensures ExtractionKeeps(DocumentKey(part))
  {
  }

  /** A property name that trimming and the attachment guard leave alone. */
  predicate ExtractionKeeps(property: string) {
    && property != ""
    && !IsWhitespace(property[0]) && !IsWhitespace(property[|property| - 1])
    && property[0] != 'a'
  }

  const DOCUMENT_PARTS := 7

  /** The parts a whole-item read inserts, in order. */
  function PartAt(k: nat): (part: Part)
    requires k < DOCUMENT_PARTS
    ensures part != Name
  {
    match k
    case 0 => Notes
    case 1 => Username
    case 2 => Password
    case 3 => Totp
    case 4 => PrivateKey
    case 5 => PublicKey
    case _ => KeyFingerprint
  }

  function PartEntries(c: DecryptedCipher, k: nat): seq<Entry>
    requires k <= DOCUMENT_PARTS
  {
    if k == 0 then []
    else PartEntries(c, k - 1) + EntryOf(DocumentKey(PartAt(k - 1)), PartValue(c, PartAt(k - 1)))
  }

  /** The conventional entries a whole-item read exposes, in insertion order. */
  function ConventionalEntries(c: DecryptedCipher): seq<Entry> {
    PartEntries(c, DOCUMENT_PARTS)
  }

  predicate Exposed(f: DecryptedField) {
    f.name.Some? && f.value.Some? && Trim(f.name.value) != ""
  }

  /** The custom entries: valued fields whose name is not blank, in order. */
  function CustomEntries(fields: seq<DecryptedField>): seq<Entry> {
    if fields == [] then []
    else
      (if Exposed(fields[0]) then [Entry(fields[0].name.value, fields[0].value.value)] else [])
      + CustomEntries(fields[1..])
  }

  function Entries(c: DecryptedCipher): seq<Entry> {
    ConventionalEntries(c) + CustomEntries(c.fields)
  }

  predicate Distinct(es: seq<Entry>) {
    forall i, j | 0 <= i < j < |es| :: es[i].key != es[j].key
  }

  function Insert(data: map<string, string>, key: string, value: Option<string>): map<string, string> {
    if value.Some? then data[key := value.value] else data
  }

  function InsertAll(data: map<string, string>, es: seq<Entry>): map<string, string>
    decreases |es|
  {
    if es == [] then data else InsertAll(data[es[0].key := es[0].value], es[1..])
  }

  function InsertFields(data: map<string, string>, fields: seq<DecryptedField>): Result<map<string, string>, CipherError>
    decreases |fields|
  {
    if fields == [] then Ok(data)
    else if !Exposed(fields[0]) then InsertFields(data, fields[1..])
    else
      var name, value := fields[0].name.value, fields[0].value.value;
      if name in data then Err(DuplicateDocumentField(name))
      else InsertFields(data[name := value], fields[1..])
  }

  function DocumentFrom(start: map<string, string>, fields: seq<DecryptedField>, id: string):
    Result<SecretDocument, CipherError>
  {
    var data :- InsertFields(start, fields);
    if data == map[] then Err(NoExtractableFields(id)) else Ok(SecretDocument(data, map[]))
  }

  function SecretDocumentOf(c: DecryptedCipher): Result<SecretDocument, CipherError> {
    DocumentFrom(InsertAll(map[], ConventionalEntries(c)), c.fields, c.id)
  }

  lemma {:induction false} InsertAllConcat(data: map<string, string>, a: seq<Entry>, b: seq<Entry>)
    ensures InsertAll(data, a + b) == InsertAll(InsertAll(data, a), b)
    decreases |a|
  {
    if a == [] {
      assert a + b == b;
    } else {
      assert (a + b)[1..] == a[1..] + b;
      InsertAllConcat(data[a[0].key := a[0].value], a[1..], b);
    }
  }

  /** The map after the first `k` parts have been inserted. */
  ghost function Filled(c: DecryptedCipher, k: nat): map<string, string>
    requires k <= DOCUMENT_PARTS
  {
    if k == 0 then map[]
    else Insert(Filled(c, k - 1), DocumentKey(PartAt(k - 1)), PartValue(c, PartAt(k - 1)))
  }

  lemma {:induction false} FilledExactly(c: DecryptedCipher, k: nat)
    requires k <= DOCUMENT_PARTS
    ensures Filled(c, k) == InsertAll(map[], PartEntries(c, k))
  {
    if k > 0 {
      FilledExactly(c, k - 1);
      InsertAllConcat(map[], PartEntries(c, k - 1), EntryOf(DocumentKey(PartAt(k - 1)), PartValue(c, PartAt(k - 1))));
    }
  }

  lemma LoginFilled(c: DecryptedCipher)
    ensures Filled(c, 4) ==
            if c.login.None? then Filled(c, 1)
            else
              var l := c.login.value;
              Insert(Insert(Insert(Filled(c, 1), "username", l.username), "password", l.password), "totp", l.totp)
  {
    assert Filled(c, 3) == Insert(Insert(Filled(c, 1), "username", PartValue(c, Username)), "password", PartValue(c, Password));
  }

  lemma SshFilled(c: DecryptedCipher)
    ensures Filled(c, 7) ==
            if c.sshKey.None? then Filled(c, 4)
            else
              var k := c.sshKey.value;
              Insert(Insert(Insert(Filled(c, 4), "privateKey", k.privateKey), "publicKey", k.publicKey),
                     "keyFingerprint", k.keyFingerprint)
  {
    assert Filled(c, 6)
        == Insert(Insert(Filled(c, 4), "privateKey", PartValue(c, PrivateKey)), "publicKey", PartValue(c, PublicKey));
  }

  lemma AllFilled(c: DecryptedCipher)
    ensures Filled(c, 1) == Insert(map[], "notes", c.notes)
    ensures Filled(c, 7) == InsertAll(map[], ConventionalEntries(c))
  {
    FilledExactly(c, 7);
    assert Filled(c, 0) == map[];
  }

  method InsertParts(c: DecryptedCipher) returns (data: map<string, string>)
    ensures data == InsertAll(map[], ConventionalEntries(c))
  {
    AllFilled(c);
    LoginFilled(c);
    SshFilled(c);
    data := map[];
    data := Insert(data, "notes", c.notes);
    if c.login.Some? {
      data := Insert(data, "username", c.login.value.username);
      data := Insert(data, "password", c.login.value.password);
      data := Insert(data, "totp", c.login.value.totp);
    }
    if c.sshKey.Some? {
      data := Insert(data, "privateKey", c.sshKey.value.privateKey);
      data := Insert(data, "publicKey", c.sshKey.value.publicKey);
      data := Insert(data, "keyFingerprint", c.sshKey.value.keyFingerprint);
    }
  }

  /** `DecryptedCipher::to_secret_document`, which fills a map in place. */
  method ToSecretDocument(c: DecryptedCipher) returns (r: Result<SecretDocument, CipherError>)
    ensures r == SecretDocumentOf(c)
  {
    var data := InsertParts(c);
    ghost var start := data;
    for i := 0 to |c.fields|
      invariant InsertFields(data, c.fields[i..]) == InsertFields(start, c.fields)
    {
      var field := c.fields[i];
      assert c.fields[i..][0] == field && c.fields[i..][1..] == c.fields[i + 1..];
      if field.name.Some? && field.value.Some? {
        if Trim(field.name.value) != "" {
          if field.name.value in data {
            return Err(DuplicateDocumentField(field.name.value));
          }
          data := data[field.name.value := field.value.value];
        }
      }
    }
    if data == map[] {
      return Err(NoExtractableFields(c.id));
    }
    return Ok(SecretDocument(data, map[]));
  }

  /** A map that holds exactly the given entries. */
  predicate Holds(data: map<string, string>, es: seq<Entry>) {
    && (forall e | e in es :: e.key in data && data[e.key] == e.value)
    && (forall k | k in data :: Entry(k, data[k]) in es)
  }

  lemma HoldsExtend(data: map<string, string>, before: seq<Entry>, e: Entry)
    requires Distinct(before) && Holds(data, before) && e.key !in data
    ensures Distinct(before + [e]) && Holds(data[e.key := e.value], before + [e])
  {
    var data', before' := data[e.key := e.value], before + [e];
    forall i | 0 <= i < |before| ensures before[i].key != e.key {
      assert before[i] in before;
    }
    forall k | k in data' ensures Entry(k, data'[k]) in before' {
      if k == e.key {
        assert before'[|before|] == e;
      } else {
        assert Entry(k, data[k]) in before;
      }
    }
    forall b | b in before' ensures b.key in data' && data'[b.key] == b.value {
      if b in before {
        assert b.key in data;
      }
    }
  }

  lemma DistinctPrefix(a: seq<Entry>, b: seq<Entry>)
    requires Distinct(a + b)
    ensures Distinct(a) && Distinct(b)
    ensures forall i, j | 0 <= i < |a| && 0 <= j < |b| :: a[i].key != b[j].key
  {
    var es := a + b;
    forall i, j | 0 <= i < j < |a| ensures a[i].key != a[j].key {
      assert es[i] == a[i] && es[j] == a[j];
    }
    forall i, j | 0 <= i < j < |b| ensures b[i].key != b[j].key {
      assert es[|a| + i] == b[i] && es[|a| + j] == b[j];
    }
    forall i, j | 0 <= i < |a| && 0 <= j < |b| ensures a[i].key != b[j].key {
      assert es[i] == a[i] && es[|a| + j] == b[j];
    }
  }

  lemma HoldsLacks(data: map<string, string>, before: seq<Entry>, e: Entry, after: seq<Entry>)
    requires Distinct(before + [e] + after) && Holds(data, before)
    ensures e.key !in data && Distinct(before)
  {
    var es := before + [e] + after;
    DistinctPrefix(before + [e], after);
    DistinctPrefix(before, [e]);
    forall b | b in before ensures b.key != e.key {
      var i :| 0 <= i < |before| && before[i] == b;
      assert es[i] == b && es[|before|] == e;
    }
  }

  /** The error names the key of the first entry whose key an earlier entry has. */
  predicate RepeatedFirst(es: seq<Entry>, error: CipherError) {
    exists n | 0 <= n < |es| :: RepeatedAt(es, n) && error == DuplicateDocumentField(es[n].key)
  }

  predicate RepeatedAt(es: seq<Entry>, n: nat) {
    n < |es| && Distinct(es[..n]) && exists i | 0 <= i < n :: es[i].key == es[n].key
  }

  lemma RepeatedNext(before: seq<Entry>, e: Entry, rest: seq<Entry>)
    requires Distinct(before) && exists b | b in before :: b.key == e.key
    ensures RepeatedFirst(before + [e] + rest, DuplicateDocumentField(e.key))
    ensures !Distinct(before + [e] + rest)
  {
    var es := before + [e] + rest;
    var b :| b in before && b.key == e.key;
    var i :| 0 <= i < |before| && before[i] == b;
    assert es[..|before|] == before && es[|before|] == e && es[i] == b;
    assert RepeatedAt(es, |before|);
  }

  lemma {:induction false} InsertFieldsExactly(data: map<string, string>, before: seq<Entry>, fields: seq<DecryptedField>)
    requires Distinct(before) && Holds(data, before)
    ensures InsertFields(data, fields).Ok? <==> Distinct(before + CustomEntries(fields))
    ensures InsertFields(data, fields).Ok? ==> Holds(InsertFields(data, fields).value, before + CustomEntries(fields))
    ensures InsertFields(data, fields).Err? ==>
              RepeatedFirst(before + CustomEntries(fields), InsertFields(data, fields).error)
    decreases |fields|
  {
    if fields == [] {
      assert before + CustomEntries(fields) == before;
    } else if !Exposed(fields[0]) {
      InsertFieldsExactly(data, before, fields[1..]);
      assert CustomEntries(fields) == CustomEntries(fields[1..]);
    } else {
      var e := Entry(fields[0].name.value, fields[0].value.value);
      var rest := CustomEntries(fields[1..]);
      assert CustomEntries(fields) == [e] + rest;
      assert before + CustomEntries(fields) == before + [e] + rest;
      if e.key in data {
        assert Entry(e.key, data[e.key]) in before;
        RepeatedNext(before, e, rest);
      } else {
        HoldsExtend(data, before, e);
        InsertFieldsExactly(data[e.key := e.value], before + [e], fields[1..]);
      }
    }
  }

  lemma {:induction false} InsertAllHolds(data: map<string, string>, before: seq<Entry>, es: seq<Entry>)
    requires Distinct(before + es) && Holds(data, before)
    ensures Holds(InsertAll(data, es), before + es)
    decreases |es|
  {
    if es == [] {
      assert before + es == before;
    } else {
      var e := es[0];
      assert before + es == before + [e] + es[1..];
      HoldsLacks(data, before, e, es[1..]);
      HoldsExtend(data, before, e);
      InsertAllHolds(data[e.key := e.value], before + [e], es[1..]);
    }
  }

  lemma DocumentKeyInjective(p: Part, q: Part)
    requires p != Name && q != Name && DocumentKey(p) == DocumentKey(q)
    ensures p == q
  {
    DocumentKeyReserved(p);
    DocumentKeyReserved(q);
  }

  lemma PartAtInjective(i: nat, j: nat)
    requires i < j < DOCUMENT_PARTS
    ensures DocumentKey(PartAt(i)) != DocumentKey(PartAt(j))
  {
    if DocumentKey(PartAt(i)) == DocumentKey(PartAt(j)) {
      DocumentKeyInjective(PartAt(i), PartAt(j));
    }
  }

  predicate FromPart(c: DecryptedCipher, k: nat, e: Entry)
    requires k < DOCUMENT_PARTS
  {
    e.key == DocumentKey(PartAt(k)) && PartValue(c, PartAt(k)) == Some(e.value)
  }

  lemma {:induction false} PartEntriesExactly(c: DecryptedCipher, k: nat)
    requires k <= DOCUMENT_PARTS
    ensures Distinct(PartEntries(c, k))
    ensures forall e | e in PartEntries(c, k) :: exists i | 0 <= i < k :: FromPart(c, i, e)
  {
    if k > 0 {
      var before, es := PartEntries(c, k - 1), PartEntries(c, k);
      PartEntriesExactly(c, k - 1);
      forall e | e in before ensures e.key != DocumentKey(PartAt(k - 1)) {
        var i :| 0 <= i < k - 1 && FromPart(c, i, e);
        PartAtInjective(i, k - 1);
      }
      forall e | e in es ensures exists i | 0 <= i < k :: FromPart(c, i, e) {
        if e !in before {
          assert FromPart(c, k - 1, e);
        }
      }
      forall i, j | 0 <= i < j < |es| ensures es[i].key != es[j].key {
        assert es[i] in before;
        if j < |before| {
          assert es[j] == before[j];
        }
      }
    }
  }

  lemma FilledFields(conventional: seq<Entry>, fields: seq<DecryptedField>)
    requires Distinct(conventional)
    ensures var es, filled := conventional + CustomEntries(fields), InsertFields(InsertAll(map[], conventional), fields);
            && (filled.Ok? <==> Distinct(es))
            && (filled.Ok? ==> Holds(filled.value, es))
            && (filled.Err? ==> RepeatedFirst(es, filled.error))
  {
    assert [] + conventional == conventional;
    InsertAllHolds(map[], [], conventional);
    InsertFieldsExactly(InsertAll(map[], conventional), conventional, fields);
  }

  lemma HoldsEmpty(data: map<string, string>, es: seq<Entry>)
    requires Holds(data, es)
    ensures data == map[] <==> es == []
  {
    if es != [] {
      assert es[0] in es;
      assert es[0].key in data;
    }
  }

  lemma WholeItemFrom(conventional: seq<Entry>, fields: seq<DecryptedField>, id: string)
    requires Distinct(conventional)
    ensures var es, r := conventional + CustomEntries(fields), DocumentFrom(InsertAll(map[], conventional), fields, id);
            && (r.Ok? <==> es != [] && Distinct(es))
            && (r.Ok? ==> Holds(r.value.data, es))
            && (!Distinct(es) <==> r.Err? && r.error.DuplicateDocumentField?)
            && (!Distinct(es) ==> RepeatedFirst(es, r.error))
            && (es == [] <==> r == Err(NoExtractableFields(id)))
  {
    FilledFields(conventional, fields);
    var filled := InsertFields(InsertAll(map[], conventional), fields);
    if filled.Ok? {
      HoldsEmpty(filled.value, conventional + CustomEntries(fields));
    }
  }

  /**
   * The whole-item read succeeds exactly when the item has at least one entry and no two
   * entries share a key; the document then holds exactly those entries. The empty item and the
   * ambiguous item fail with different errors.
   */
  lemma WholeItemExactly(c: DecryptedCipher)
    ensures SecretDocumentOf(c).Ok? <==> Entries(c) != [] && Distinct(Entries(c))
    ensures SecretDocumentOf(c).Ok? ==> Holds(SecretDocumentOf(c).value.data, Entries(c))
    ensures !Distinct(Entries(c)) <==> SecretDocumentOf(c).Err? && SecretDocumentOf(c).error.DuplicateDocumentField?
    ensures !Distinct(Entries(c)) ==> RepeatedFirst(Entries(c), SecretDocumentOf(c).error)
    ensures Entries(c) == [] <==> SecretDocumentOf(c) == Err(NoExtractableFields(c.id))
  {
    var conventional := ConventionalEntries(c);
    PartEntriesExactly(c, DOCUMENT_PARTS);
    WholeItemFrom(conventional, c.fields, c.id);
  }

  // ---------- Every secret is read from its own ciphertext ----------

  /** The encrypted string that belongs to a part. */
  function EncryptedPart(c: EncryptedCipher, part: Part): Option<string> {
    var login := if c.login.Some? then c.login.value else EncryptedLogin(None, None, None);
    var ssh := if c.sshKey.Some? then c.sshKey.value else EncryptedSshKey(None, None, None);
    match part
    case Name => c.name
    case Notes => c.notes
    case Username => login.username
    case Password => login.password
    case Totp => login.totp
    case PrivateKey => ssh.privateKey
    case PublicKey => ssh.publicKey
    case KeyFingerprint => ssh.keyFingerprint
  }

  predicate IsPlaintextOf(prim: Primitives, key: SymmetricKey, plain: Option<string>, raw: Option<string>) {
    && (plain.Some? <==> raw.Some?)
    && (raw.Some? ==> DecryptText(prim, raw.value, key) == Ok(plain.value))
  }

  lemma {:induction false} FieldsInPlace(prim: Primitives, fields: seq<EncryptedField>, key: SymmetricKey)
    requires DecryptFields(prim, fields, key).Ok?
    ensures var ds := DecryptFields(prim, fields, key).value;
            && |ds| == |fields|
            && forall i | 0 <= i < |fields| ::
                 && IsPlaintextOf(prim, key, ds[i].name, fields[i].name)
                 && IsPlaintextOf(prim, key, ds[i].value, fields[i].value)
  {
    if fields != [] {
      FieldsInPlace(prim, fields[1..], key);
    }
  }

  lemma LoginInPlace(prim: Primitives, login: Option<EncryptedLogin>, key: SymmetricKey)
    requires DecryptLogin(prim, login, key).Ok?
    ensures var d := DecryptLogin(prim, login, key).value;
            && (d.Some? <==> login.Some?)
            && (login.Some? ==>
                  && IsPlaintextOf(prim, key, d.value.username, login.value.username)
                  && IsPlaintextOf(prim, key, d.value.password, login.value.password)
                  && IsPlaintextOf(prim, key, d.value.totp, login.value.totp))
  {
  }

  lemma SshKeyInPlace(prim: Primitives, sshKey: Option<EncryptedSshKey>, key: SymmetricKey)
    requires DecryptSshKey(prim, sshKey, key).Ok?
    ensures var d := DecryptSshKey(prim, sshKey, key).value;
            && (d.Some? <==> sshKey.Some?)
            && (sshKey.Some? ==>
                  && IsPlaintextOf(prim, key, d.value.privateKey, sshKey.value.privateKey)
                  && IsPlaintextOf(prim, key, d.value.publicKey, sshKey.value.publicKey)
                  && IsPlaintextOf(prim, key, d.value.keyFingerprint, sshKey.value.keyFingerprint))
  {
  }

  lemma StepsOfDecrypt(prim: Primitives, cipher: EncryptedCipher, userKey: SymmetricKey)
    requires Decrypt(prim, cipher, userKey).Ok?
    ensures CipherKey(prim, cipher, userKey).Ok?
    ensures var d, key := Decrypt(prim, cipher, userKey).value, CipherKey(prim, cipher, userKey).value;
            && d.id == cipher.id && d.organizationId == cipher.organizationId
            && IsPlaintextOf(prim, key, d.name, cipher.name) && IsPlaintextOf(prim, key, d.notes, cipher.notes)
            && DecryptFields(prim, cipher.fields, key) == Ok(d.fields)
            && DecryptLogin(prim, cipher.login, key) == Ok(d.login)
            && DecryptSshKey(prim, cipher.sshKey, key) == Ok(d.sshKey)
  {
  }

  lemma PartsUnderKey(prim: Primitives, cipher: EncryptedCipher, userKey: SymmetricKey, part: Part)
    requires Decrypt(prim, cipher, userKey).Ok?
    ensures CipherKey(prim, cipher, userKey).Ok?
    ensures var d, key := Decrypt(prim, cipher, userKey).value, CipherKey(prim, cipher, userKey).value;
            && d.id == cipher.id && d.organizationId == cipher.organizationId
            && IsPlaintextOf(prim, key, PartValue(d, part), EncryptedPart(cipher, part))
            && |d.fields| == |cipher.fields|
            && forall i | 0 <= i < |d.fields| ::
                 && IsPlaintextOf(prim, key, d.fields[i].name, cipher.fields[i].name)
                 && IsPlaintextOf(prim, key, d.fields[i].value, cipher.fields[i].value)
  {
    StepsOfDecrypt(prim, cipher, userKey);
    var key := CipherKey(prim, cipher, userKey).value;
    FieldsInPlace(prim, cipher.fields, key);
    LoginInPlace(prim, cipher.login, key);
    SshKeyInPlace(prim, cipher.sshKey, key);
  }

  /** Both are absent, or the one is the text that the other encrypts. */
  predicate TextOf(prim: Primitives, key: SymmetricKey, plain: Option<string>, raw: Option<string>) {
    && (plain.Some? <==> raw.Some?)
    && (raw.Some? ==> ReadsText(prim, key, raw.value, plain.value))
  }

  lemma PlaintextIsText(prim: Primitives, key: SymmetricKey, plain: Option<string>, raw: Option<string>)
    requires IsPlaintextOf(prim, key, plain, raw)
    ensures TextOf(prim, key, plain, raw)
  {
    if raw.Some? {
      DecryptTextExactly(prim, raw.value, key);
    }
  }

  /**
   * Decryption moves nothing: every part and every custom field of the result is the text of the
   * encrypted string in the same place, read under the cipher's own key.
   */
  lemma PartsInPlace(prim: Primitives, cipher: EncryptedCipher, userKey: SymmetricKey, key: SymmetricKey, part: Part)
    requires Decrypt(prim, cipher, userKey).Ok? && OwnKey(prim, cipher, userKey, key)
    ensures var d := Decrypt(prim, cipher, userKey).value;
            && d.id == cipher.id && d.organizationId == cipher.organizationId
            && TextOf(prim, key, PartValue(d, part), EncryptedPart(cipher, part))
            && |d.fields| == |cipher.fields|
            && forall i | 0 <= i < |d.fields| ::
                 && TextOf(prim, key, d.fields[i].name, cipher.fields[i].name)
                 && TextOf(prim, key, d.fields[i].value, cipher.fields[i].value)
  {
    CipherKeyExactly(prim, cipher, userKey);
    PartsUnderKey(prim, cipher, userKey, part);
    var d := Decrypt(prim, cipher, userKey).value;
    PlaintextIsText(prim, key, PartValue(d, part), EncryptedPart(cipher, part));
    forall i | 0 <= i < |d.fields|
      ensures TextOf(prim, key, d.fields[i].name, cipher.fields[i].name)
      ensures TextOf(prim, key, d.fields[i].value, cipher.fields[i].value)
    {
      PlaintextIsText(prim, key, d.fields[i].name, cipher.fields[i].name);
      PlaintextIsText(prim, key, d.fields[i].value, cipher.fields[i].value);
    }
  }

  lemma {:induction false} PartEntered(c: DecryptedCipher, i: nat, k: nat)
    requires i < k <= DOCUMENT_PARTS && PartValue(c, PartAt(i)).Some?
    ensures Entry(DocumentKey(PartAt(i)), PartValue(c, PartAt(i)).value) in PartEntries(c, k)
  {
    if i < k - 1 {
      PartEntered(c, i, k - 1);
    }
  }

  /** From ciphertext to document: each conventional key of the document holds its own text. */
  lemma DocumentHoldsItsPlaintexts(prim: Primitives, cipher: EncryptedCipher, userKey: SymmetricKey, key: SymmetricKey, k: nat)
    requires k < DOCUMENT_PARTS && EncryptedPart(cipher, PartAt(k)).Some? && OwnKey(prim, cipher, userKey, key)
    requires Decrypt(prim, cipher, userKey).Ok? && SecretDocumentOf(Decrypt(prim, cipher, userKey).value).Ok?
    ensures var data := SecretDocumentOf(Decrypt(prim, cipher, userKey).value).value.data;
            && DocumentKey(PartAt(k)) in data
            && ReadsText(prim, key, EncryptedPart(cipher, PartAt(k)).value, data[DocumentKey(PartAt(k))])
  {
    var d := Decrypt(prim, cipher, userKey).value;
    PartsInPlace(prim, cipher, userKey, key, PartAt(k));
    PartEntered(d, k, DOCUMENT_PARTS);
    WholeItemExactly(d);
    HeldEntry(SecretDocumentOf(d).value.data, Entries(d), Entry(DocumentKey(PartAt(k)), PartValue(d, PartAt(k)).value));
  }

  lemma HeldEntry(data: map<string, string>, es: seq<Entry>, e: Entry)
    requires Holds(data, es) && e in es
    ensures e.key in data && data[e.key] == e.value
  {
  }

  // ---------- The two readings agree ----------

  /** Reading a conventional key of the document as a single property gives the same value. */
  lemma ConventionalAgrees(c: DecryptedCipher, e: Entry)
    requires e in ConventionalEntries(c)
    ensures ExtractProperty(c, e.key) == Ok(e.value)
  {
    PartEntriesExactly(c, DOCUMENT_PARTS);
    var k :| 0 <= k < DOCUMENT_PARTS && FromPart(c, k, e);
    DocumentKeyReserved(PartAt(k));
    TrimKeeps(IsWhitespace, e.key);
    NotAttachment(e.key);
  }

  /** The single read of a property that stands for one optional text of the record. */
  predicate ReadsField(c: DecryptedCipher, property: string, value: Option<string>) {
    ExtractProperty(c, property) == if value.Some? then Ok(value.value) else Err(MissingProperty(property))
  }

  lemma ReservedReads(c: DecryptedCipher, property: string, part: Part)
    requires Reserved(property) == Some(part) && ExtractionKeeps(property)
    ensures ReadsField(c, property, PartValue(c, part))
  {
    TrimKeeps(IsWhitespace, property);
    NotAttachment(property);
  }

  /** The property names that stand for a part, aliases included. */
  predicate IsNameOf(p: string, part: Part) {
    match part
    case Name => p == "name"
    case Notes => p == "notes"
    case Username => p == "username" || p == "login.username"
    case Password => p == "password" || p == "login.password"
    case Totp => p == "totp" || p == "login.totp"
    case PrivateKey => p == "privateKey" || p == "sshPrivateKey" || p == "sshKey.privateKey"
    case PublicKey => p == "publicKey" || p == "sshPublicKey" || p == "sshKey.publicKey"
    case KeyFingerprint => p == "keyFingerprint" || p == "sshKey.keyFingerprint"
  }

  lemma ReservedExactly(p: string, part: Part)
    ensures Reserved(p) == Some(part) <==> IsNameOf(p, part)
  {
  }

  lemma NamesAreKept(p: string, part: Part)
    requires IsNameOf(p, part)
    ensures ExtractionKeeps(p)
  {
  }

  /** Under each of its names, aliases included, a single read returns the record's own text. */
  lemma EveryNameReadsItsField(c: DecryptedCipher, p: string, part: Part)
    requires IsNameOf(p, part)
    ensures match part
            case Name => ReadsField(c, p, c.name)
            case Notes => ReadsField(c, p, c.notes)
            case Username => ReadsField(c, p, if c.login.Some? then c.login.value.username else None)
            case Password => ReadsField(c, p, if c.login.Some? then c.login.value.password else None)
            case Totp => ReadsField(c, p, if c.login.Some? then c.login.value.totp else None)
            case PrivateKey => ReadsField(c, p, if c.sshKey.Some? then c.sshKey.value.privateKey else None)
            case PublicKey => ReadsField(c, p, if c.sshKey.Some? then c.sshKey.value.publicKey else None)
            case KeyFingerprint => ReadsField(c, p, if c.sshKey.Some? then c.sshKey.value.keyFingerprint else None)
  {
    ReservedExactly(p, part);
    NamesAreKept(p, part);
    ReservedReads(c, p, part);
  }

  lemma NotReserved(p: string)
    requires forall part :: !IsNameOf(p, part)
    ensures Reserved(p).None?
  {
    if Reserved(p).Some? {
      ReservedExactly(p, Reserved(p).value);
    }
  }

  /** Surrounding white space of a property name is ignored; nothing else is an error of the name. */
  lemma PropertyTrimmed(c: DecryptedCipher, raw: string)
    ensures ExtractProperty(c, raw) == ExtractProperty(c, Trim(raw))
    ensures ExtractProperty(c, raw) == Err(BlankProperty) <==> forall ch | ch in raw :: IsWhitespace(ch)
    ensures ExtractProperty(c, raw) == Err(UnsupportedAttachment) <==>
            (exists rest :: Trim(raw) == "attachment." + rest) || (exists rest :: Trim(raw) == "attachments." + rest)
  {
    TrimIdempotent(IsWhitespace, raw);
    TrimEmptyIffBlank(IsWhitespace, raw);
    PrefixedExactly("attachment.", Trim(raw));
    PrefixedExactly("attachments.", Trim(raw));
  }

  lemma PrefixedExactly(prefix: string, s: string)
    ensures StartsWith(s, prefix) <==> exists rest :: s == prefix + rest
  {
    if StartsWith(s, prefix) {
      assert s == prefix + s[|prefix|..];
    }
  }

  /** A bare name that is not reserved reads the one custom field of that name. */
  lemma BareNameReads(c: DecryptedCipher, p: string, value: string)
    requires Trim(p) == p != "" && forall part :: !IsNameOf(p, part)
    requires !StartsWith(p, "attachment.") && !StartsWith(p, "attachments.")
    requires !StartsWith(p, "field.") && !StartsWith(p, "custom.")
    ensures ExtractProperty(c, p) == Ok(value) <==> OnlyField(c.fields, p, value)
  {
    NotReserved(p);
    assert CustomName(p) == p;
    NamedOnce(c.fields, p, value);
  }

  /** `custom.` before a key does what `field.` does. */
  lemma CustomPrefixReads(c: DecryptedCipher, k: string, value: string)
    ensures ExtractProperty(c, "custom." + k) == Ok(value) <==> OnlyField(c.fields, TrimEnd(k), value)
  {
    var raw, property := "custom." + k, "custom." + TrimEnd(k);
    assert raw[0] == 'c' && property[0] == 'c';
    assert TrimStartBy(IsWhitespace, raw) == raw;
    TrimEndOfSuffix("custom.", k);
    assert Trim(raw) == property;
    NotAttachment(property);
    CustomNameStripped(TrimEnd(k));
    NamedOnce(c.fields, TrimEnd(k), value);
  }

  lemma CustomNameStripped(k: string)
    ensures CustomName("custom." + k) == k && Reserved("custom." + k).None?
  {
    var p := "custom." + k;
    assert p[0] == 'c' && "field."[0] == 'f';
    assert p[7..] == k;
  }

  lemma NotAttachment(property: string)
    requires property != "" && property[0] != 'a'
    ensures !StartsWith(property, "attachment.") && !StartsWith(property, "attachments.")
  {
    assert "attachment."[0] == 'a' && "attachments."[0] == 'a';
  }

  /** No reserved name starts with the letter of the `field.` prefix. */
  lemma FieldNotReserved(property: string)
    requires property != "" && property[0] == 'f'
    ensures Reserved(property).None?
  {
  }

  lemma {:induction false} TrimEndOfSuffix(head: string, k: string)
    requires head != "" && !IsWhitespace(head[|head| - 1])
    ensures TrimEnd(head + k) == head + TrimEnd(k)
  {
    if k == "" {
      assert head + k == head;
    } else {
      var n := |k| - 1;
      assert (head + k)[..|head + k| - 1] == head + k[..n];
      assert (head + k)[|head + k| - 1] == k[n];
      TrimEndOfSuffix(head, k[..n]);
    }
  }

  /**
   * `field.` followed by any key reads the custom fields of that name with its trailing white
   * space removed: no reserved name can capture it.
   */
  lemma FieldPrefixReads(c: DecryptedCipher, k: string)
    ensures ExtractProperty(c, "field." + k) == CustomLookup(c.fields, TrimEnd(k), "field." + TrimEnd(k))
  {
    var raw := "field." + k;
    assert raw[0] == 'f';
    assert TrimStartBy(IsWhitespace, raw) == raw;
    TrimEndOfSuffix("field.", k);
    var property := "field." + TrimEnd(k);
    assert Trim(raw) == property;
    assert property[0] == 'f';
    NotAttachment(property);
    FieldNotReserved(property);
    assert property[6..] == TrimEnd(k);
    assert "field." <= property;
    assert CustomName(property) == TrimEnd(k);
  }

  lemma {:induction false} NamedExactly(fields: seq<DecryptedField>, name: string)
    ensures forall f :: f in Named(fields, name) <==> f in fields && f.name == Some(name)
  {
    if fields != [] {
      NamedExactly(fields[1..], name);
      assert fields == [fields[0]] + fields[1..];
    }
  }

  lemma {:induction false} CustomEntriesExactly(fields: seq<DecryptedField>, e: Entry)
    ensures e in CustomEntries(fields) <==>
            Trim(e.key) != "" && exists f | f in fields :: f.name == Some(e.key) && f.value == Some(e.value)
  {
    if fields != [] {
      CustomEntriesExactly(fields[1..], e);
      assert fields == [fields[0]] + fields[1..];
    }
  }

  lemma NoOtherNamed(fields: seq<DecryptedField>, name: string)
    requires Trim(name) != ""
    requires forall e | e in CustomEntries(fields) :: e.key != name
    requires forall f | f in fields && f.name == Some(name) :: f.value.Some?
    ensures Named(fields, name) == []
  {
    forall f | f in fields ensures f.name != Some(name) {
      if f.name == Some(name) {
        CustomEntriesExactly(fields, Entry(name, f.value.value));
      }
    }
    NoneNamed(fields, name);
  }

  lemma {:induction false} UniqueNamed(fields: seq<DecryptedField>, e: Entry)
    requires Distinct(CustomEntries(fields)) && e in CustomEntries(fields)
    requires forall f | f in fields && f.name == Some(e.key) :: f.value.Some?
    ensures |Named(fields, e.key)| == 1 && Named(fields, e.key)[0].value == Some(e.value)
  {
    CustomEntriesExactly(fields, e);
    var head, rest := fields[0], fields[1..];
    var es := CustomEntries(rest);
    assert fields == [head] + rest;
    if Exposed(head) {
      var first := Entry(head.name.value, head.value.value);
      assert CustomEntries(fields) == [first] + es;
      DistinctPrefix([first], es);
      forall o | o in es ensures o.key != first.key {
        var i :| 0 <= i < |es| && es[i] == o;
        assert [first][0] == first;
      }
      if first.key == e.key {
        assert first == e;
        NoOtherNamed(rest, e.key);
      } else {
        UniqueNamed(rest, e);
      }
    } else {
      assert CustomEntries(fields) == es;
      UniqueNamed(rest, e);
    }
  }

  lemma CustomLookupExactly(fields: seq<DecryptedField>, e: Entry, property: string)
    requires Distinct(CustomEntries(fields)) && e in CustomEntries(fields)
    ensures CustomLookup(fields, e.key, property) == Ok(e.value) <==>
            forall f | f in fields && f.name == Some(e.key) :: f.value.Some?
    ensures CustomLookup(fields, e.key, property) == Ok(e.value)
            || CustomLookup(fields, e.key, property) == Err(DuplicateDocumentField(e.key))
  {
    if forall f | f in fields && f.name == Some(e.key) :: f.value.Some? {
      UniqueNamed(fields, e);
    } else {
      var f :| f in fields && f.name == Some(e.key) && f.value.None?;
      CustomEntriesExactly(fields, e);
      var g :| g in fields && g.name == Some(e.key) && g.value == Some(e.value);
      NamedExactly(fields, e.key);
      TwoMembers(Named(fields, e.key), f, g);
    }
  }

  lemma TwoMembers<T>(s: seq<T>, x: T, y: T)
    requires x in s && y in s && x != y
    ensures |s| > 1
  {
    var i :| 0 <= i < |s| && s[i] == x;
    var j :| 0 <= j < |s| && s[j] == y;
    assert i != j;
  }

  predicate OnlyAt(fields: seq<DecryptedField>, i: nat, name: string, value: string) {
    && i < |fields| && fields[i] == DecryptedField(Some(name), Some(value))
    && forall j | 0 <= j < |fields| && j != i :: fields[j].name != Some(name)
  }

  /** Of all the fields just one has the name, and that one has the value. */
  predicate OnlyField(fields: seq<DecryptedField>, name: string, value: string) {
    exists i | 0 <= i < |fields| :: OnlyAt(fields, i, name, value)
  }

  lemma OnlyAtHead(fields: seq<DecryptedField>, name: string, value: string)
    requires fields != []
    ensures OnlyAt(fields, 0, name, value) <==>
            fields[0] == DecryptedField(Some(name), Some(value)) && forall f | f in fields[1..] :: f.name != Some(name)
  {
    forall f | f in fields[1..] && OnlyAt(fields, 0, name, value) ensures f.name != Some(name) {
      var k :| 0 <= k < |fields[1..]| && fields[1..][k] == f;
      assert fields[k + 1] == f;
    }
    if forall f | f in fields[1..] :: f.name != Some(name) {
      forall j | 0 < j < |fields| ensures fields[j].name != Some(name) {
        assert fields[1..][j - 1] in fields[1..];
      }
    }
  }

  lemma OnlyAtTail(fields: seq<DecryptedField>, i: nat, name: string, value: string)
    requires fields != []
    ensures OnlyAt(fields, i + 1, name, value) <==> fields[0].name != Some(name) && OnlyAt(fields[1..], i, name, value)
  {
    var rest := fields[1..];
    if OnlyAt(fields, i + 1, name, value) {
      forall j | 0 <= j < |rest| && j != i ensures rest[j].name != Some(name) {
        assert rest[j] == fields[j + 1];
      }
    }
    if fields[0].name != Some(name) && OnlyAt(rest, i, name, value) {
      forall j | 0 <= j < |fields| && j != i + 1 ensures fields[j].name != Some(name) {
        if j > 0 {
          assert fields[j] == rest[j - 1];
        }
      }
    }
  }

  lemma OnlyFieldSplits(fields: seq<DecryptedField>, name: string, value: string)
    requires fields != []
    ensures OnlyField(fields, name, value) <==>
            if fields[0].name == Some(name)
            then fields[0].value == Some(value) && forall f | f in fields[1..] :: f.name != Some(name)
            else OnlyField(fields[1..], name, value)
  {
    OnlyAtHead(fields, name, value);
    if OnlyField(fields, name, value) {
      var i :| 0 <= i < |fields| && OnlyAt(fields, i, name, value);
      if i > 0 {
        OnlyAtTail(fields, i - 1, name, value);
      }
    }
    if OnlyField(fields[1..], name, value) && fields[0].name != Some(name) {
      var i :| 0 <= i < |fields[1..]| && OnlyAt(fields[1..], i, name, value);
      OnlyAtTail(fields, i, name, value);
    }
  }

  lemma {:induction false} NamedOnce(fields: seq<DecryptedField>, name: string, value: string)
    ensures |Named(fields, name)| == 1 && Named(fields, name)[0].value == Some(value) <==> OnlyField(fields, name, value)
  {
    if fields != [] {
      var head, rest := fields[0], fields[1..];
      OnlyFieldSplits(fields, name, value);
      NamedOnce(rest, name, value);
      NamedExactly(rest, name);
      if forall f | f in rest :: f.name != Some(name) {
        NoneNamed(rest, name);
      } else {
        var f :| f in rest && f.name == Some(name);
        assert f in Named(rest, name);
      }
    }
  }

  /**
   * For every item and every key at all, reading `field.` plus the key yields a value exactly
   * when one field alone has the key's name without trailing white space, and has that value.
   */
  lemma FieldReadsExactly(c: DecryptedCipher, k: string, value: string)
    ensures ExtractProperty(c, "field." + k) == Ok(value) <==> OnlyField(c.fields, TrimEnd(k), value)
  {
    FieldPrefixReads(c, k);
    NamedOnce(c.fields, TrimEnd(k), value);
  }

  predicate NamedTwice(fields: seq<DecryptedField>, name: string) {
    exists i, j | 0 <= i < j < |fields| :: fields[i].name == Some(name) && fields[j].name == Some(name)
  }

  lemma {:induction false} TwoNamed(fields: seq<DecryptedField>, name: string)
    ensures |Named(fields, name)| > 1 <==> NamedTwice(fields, name)
  {
    if fields != [] {
      var head, rest := fields[0], fields[1..];
      TwoNamed(rest, name);
      NamedExactly(rest, name);
      TwiceSplits(fields, name);
      if forall f | f in rest :: f.name != Some(name) {
        NoneNamed(rest, name);
      } else {
        var f :| f in rest && f.name == Some(name);
        assert f in Named(rest, name);
      }
    }
  }

  lemma TwiceSplits(fields: seq<DecryptedField>, name: string)
    requires fields != []
    ensures NamedTwice(fields, name) <==>
            NamedTwice(fields[1..], name) || (fields[0].name == Some(name) && exists f | f in fields[1..] :: f.name == Some(name))
  {
    var rest := fields[1..];
    if i, j :| 0 <= i < j < |fields| && fields[i].name == Some(name) && fields[j].name == Some(name) {
      assert rest[j - 1] == fields[j] && rest[j - 1] in rest;
      if i > 0 {
        assert rest[i - 1] == fields[i];
      }
    }
    if i, j :| 0 <= i < j < |rest| && rest[i].name == Some(name) && rest[j].name == Some(name) {
      assert fields[i + 1] == rest[i] && fields[j + 1] == rest[j];
    }
    if f :| f in rest && f.name == Some(name) {
      var j :| 0 <= j < |rest| && rest[j] == f;
      assert fields[j + 1] == f;
    }
  }

  /** When it does not read a value: the name is ambiguous exactly when two fields have it. */
  lemma FieldErrorsExactly(c: DecryptedCipher, k: string)
    ensures var r := ExtractProperty(c, "field." + k);
            && (r == Err(DuplicateDocumentField(TrimEnd(k))) <==> NamedTwice(c.fields, TrimEnd(k)))
            && (r.Err? && !NamedTwice(c.fields, TrimEnd(k)) ==> r == Err(MissingProperty("field." + TrimEnd(k))))
  {
    FieldPrefixReads(c, k);
    TwoNamed(c.fields, TrimEnd(k));
  }

  /**
   * Any custom entry of the document can be read back as `field.` plus its key exactly when one
   * field alone has the key's name without trailing white space, and holds the entry's value.
   * For a key without trailing white space that means that no valueless field repeats the name.
   */
  lemma CustomAgreesExactly(c: DecryptedCipher, e: Entry)
    requires SecretDocumentOf(c).Ok? && e in CustomEntries(c.fields)
    ensures ExtractProperty(c, "field." + e.key) == Ok(e.value) <==> OnlyField(c.fields, TrimEnd(e.key), e.value)
    ensures TrimEnd(e.key) == e.key ==>
              (ExtractProperty(c, "field." + e.key) == Ok(e.value) <==>
               forall f | f in c.fields && f.name == Some(e.key) :: f.value.Some?)
    ensures TrimEnd(e.key) == e.key ==>
              ExtractProperty(c, "field." + e.key) == Ok(e.value)
              || ExtractProperty(c, "field." + e.key) == Err(DuplicateDocumentField(e.key))
  {
    WholeItemExactly(c);
    DistinctPrefix(ConventionalEntries(c), CustomEntries(c.fields));
    CustomLookupExactly(c.fields, e, "field." + e.key);
    FieldPrefixReads(c, e.key);
    FieldReadsExactly(c, e.key, e.value);
  }

  /**
   * With trailing white space in the key the single read looks for the trimmed name instead:
   * an entry of the document cannot be read back when no field has that trimmed name.
   */
  lemma TrailingSpaceDisagrees(c: DecryptedCipher, e: Entry)
    requires SecretDocumentOf(c).Ok? && e in CustomEntries(c.fields)
    requires TrimEnd(e.key) != e.key && forall f | f in c.fields :: f.name != Some(TrimEnd(e.key))
    ensures ExtractProperty(c, "field." + e.key) == Err(MissingProperty("field." + TrimEnd(e.key)))
  {
    FieldPrefixReads(c, e.key);
    NoneNamed(c.fields, TrimEnd(e.key));
  }

  /**
   * Worse, when the trimmed name is the key of another entry, the single read returns that
   * other entry's value, while the document holds both values, each under its own key.
   */
  lemma TrailingSpaceReadsAnother(c: DecryptedCipher, e: Entry, other: Entry)
    requires SecretDocumentOf(c).Ok? && e in CustomEntries(c.fields) && other in CustomEntries(c.fields)
    requires other.key == TrimEnd(e.key) != e.key
    requires forall f | f in c.fields && f.name == Some(other.key) :: f.value.Some?
    ensures ExtractProperty(c, "field." + e.key) == Ok(other.value)
    ensures var data := SecretDocumentOf(c).value.data;
            && e.key in data && data[e.key] == e.value
            && other.key in data && data[other.key] == other.value
  {
    WholeItemExactly(c);
    DistinctPrefix(ConventionalEntries(c), CustomEntries(c.fields));
    UniqueNamed(c.fields, other);
    FieldPrefixReads(c, e.key);
    HeldEntry(SecretDocumentOf(c).value.data, Entries(c), e);
    HeldEntry(SecretDocumentOf(c).value.data, Entries(c), other);
  }

  /** Two fields named `a` and `a` followed by a space do it, whatever their values. */
  lemma TrailingSpaceExample(x: string, y: string)
    ensures var c := DecryptedCipher("", None, None, None,
                                     [DecryptedField(Some("a "), Some(x)), DecryptedField(Some("a"), Some(y))], None, None);
            && ExtractProperty(c, "field.a ") == Ok(y)
            && SecretDocumentOf(c).Ok? && SecretDocumentOf(c).value.data == map["a " := x, "a" := y]
  {
    var f, g := DecryptedField(Some("a "), Some(x)), DecryptedField(Some("a"), Some(y));
    var c := DecryptedCipher("", None, None, None, [f, g], None, None);
    assert TrimEnd("a ") == "a" by {
      assert "a "[..1] == "a";
    }
    assert OnlyAt(c.fields, 1, "a", y);
    FieldReadsExactly(c, "a ", y);
    assert "field." + "a " == "field.a ";
    TrimKeeps(IsWhitespace, "a");
    assert TrimBy(IsWhitespace, "a ") != "";
    NoParts(c, DOCUMENT_PARTS);
    assert [f, g][1..] == [g] && [g][1..] == [];
    assert InsertFields(map["a " := x], [g]) == Ok(map["a " := x, "a" := y]);
    assert InsertFields(map[], [f, g]) == Ok(map["a " := x, "a" := y]);
  }

  lemma {:induction false} NoParts(c: DecryptedCipher, k: nat)
    requires k <= DOCUMENT_PARTS && c.notes.None? && c.login.None? && c.sshKey.None?
    ensures PartEntries(c, k) == []
  {
    if k > 0 {
      NoParts(c, k - 1);
      assert PartValue(c, PartAt(k - 1)).None?;
    }
  }

  lemma {:induction false} NoneNamed(fields: seq<DecryptedField>, name: string)
    requires forall f | f in fields :: f.name != Some(name)
    ensures Named(fields, name) == []
  {
    if fields != [] {
      assert fields[0] in fields;
      NoneNamed(fields[1..], name);
    }
  }
}
