// Selectors and the lookup of a cipher in one sync response: the first live cipher with an id,
// or the only live personal cipher with a name.

module Selectors {
  import opened Prelude
  import opened Text
  import opened Errors

  datatype RemoteRef = RemoteRef(key: string, property: Option<string>, version: Option<string>)

  /** A validated selector. */
  datatype Selector = Selector(key: string, property: Option<string>)

  datatype CipherLookup = Id(id: string) | ByName(name: string)

  /** `CipherLookup::from_key`. */
  function FromKey(key: string): Result<CipherLookup, ClientError> {
    match StripPrefix(key, "id:")
    case Some(id) => Ok(Id(id))
    case None =>
      match StripPrefix(key, "name:")
      case Some(name) => Ok(ByName(name))
      case None => Err(UnprefixedSelectorKey)
  }

  /** `id:` and `name:` select by id and by name, whatever follows; other keys are refused. */
  lemma KeysExactly(key: string, operand: string)
    ensures FromKey(key) == Ok(Id(operand)) <==> key == "id:" + operand
    ensures FromKey(key) == Ok(ByName(operand)) <==> key == "name:" + operand
    ensures FromKey(key).Err? ==> FromKey(key) == Err(UnprefixedSelectorKey)
  {
    if "id:" <= key {
      assert key == "id:" + key[3..];
      assert key[0] == 'i' && "name:"[0] == 'n';
    } else if "name:" <= key {
      assert key == "name:" + key[5..];
      assert key[0] == 'n' && "id:"[0] == 'i';
    }
    assert ("id:" + operand)[3..] == operand && ("name:" + operand)[5..] == operand;
    assert ("name:" + operand)[0] == 'n' && "id:"[0] == 'i';
  }

  function RequireNonEmpty(value: string, field: string): Result<(), ClientError> {
    if Trim(value) == "" then Err(Validation(field)) else Ok(())
  }

  function Operand(lookup: CipherLookup): string {
    match lookup
    case Id(id) => id
    case ByName(name) => name
  }

  function ValidateSelectorKey(key: string): Result<(), ClientError> {
    match FromKey(key)
    case Err(e) => Err(e)
    case Ok(lookup) => RequireNonEmpty(Operand(lookup), "remote_ref.key")
  }

  function NormalizeProperty(property: Option<string>): Result<Option<string>, ClientError> {
    match property
    case None => Ok(None)
    case Some(p) =>
      var _ :- RequireNonEmpty(p, "remote_ref.property");
      Ok(Some(Trim(p)))
  }

  /** `BitwardenSelector::try_from`. */
  function FromRemoteRef(ref: RemoteRef): Result<Selector, ClientError> {
    var _ :- RequireNonEmpty(ref.key, "remote_ref.key");
    if ref.version.Some? && Trim(ref.version.value) != "" then Err(UnsupportedVersionSelector)
    else
      var property :- NormalizeProperty(ref.property);
      var _ :- ValidateSelectorKey(Trim(ref.key));
      Ok(Selector(Trim(ref.key), property))
  }

  /** A key the lookup understands: one of the two prefixes and a non-blank operand. */
  predicate ValidKey(key: string) {
    FromKey(key).Ok? && Trim(Operand(FromKey(key).value)) != ""
  }

  /** What validation guarantees to the lookup: a valid key and property with trimmed ends. */
  predicate WellFormed(s: Selector) {
    && Trim(s.key) == s.key && ValidKey(s.key)
    && (s.property.Some? ==> Trim(s.property.value) == s.property.value != "")
  }

  lemma ValidKeyNotEmpty(key: string)
    requires ValidKey(key)
    ensures key != ""
  {
    assert |"id:"| > 0 && |"name:"| > 0;
  }

  lemma NormalizePropertyExactly(property: Option<string>)
    ensures NormalizeProperty(property).Ok? <==> property.Some? ==> Trim(property.value) != ""
    ensures NormalizeProperty(property).Ok? ==>
              var p := NormalizeProperty(property).value;
              && (p.Some? <==> property.Some?)
              && (p.Some? ==> Trim(p.value) == p.value == Trim(property.value) != "")
  {
    if property.Some? {
      TrimIdempotent(IsWhitespace, property.value);
    }
  }

  /** A prefix followed by an operand that is not blank. */
  ghost predicate HasOperand(key: string) {
    exists operand :: (key == "id:" + operand || key == "name:" + operand) && Trim(operand) != ""
  }

  lemma ValidKeyExactly(key: string)
    ensures ValidKey(key) <==> HasOperand(key)
  {
    var parsed := FromKey(key);
    if parsed.Ok? {
      KeysExactly(key, Operand(parsed.value));
    }
    forall operand | key == "id:" + operand || key == "name:" + operand
      ensures parsed.Ok? && Operand(parsed.value) == operand
    {
      KeysExactly(key, operand);
    }
  }

  /**
   * Validation accepts exactly the references without a version whose trimmed key has a prefix
   * and a non-blank operand and whose property, if present, is not blank.
   */
  lemma SelectorAcceptedExactly(ref: RemoteRef)
    ensures FromRemoteRef(ref).Ok? <==>
            && (ref.version.Some? ==> Trim(ref.version.value) == "")
            && (ref.property.Some? ==> Trim(ref.property.value) != "")
            && HasOperand(Trim(ref.key))
    ensures FromRemoteRef(ref).Ok? ==>
              var s := FromRemoteRef(ref).value;
              && s.key == Trim(ref.key)
              && s.property == if ref.property.Some? then Some(Trim(ref.property.value)) else None
  {
    NormalizePropertyExactly(ref.property);
    ValidKeyExactly(Trim(ref.key));
    if ValidKey(Trim(ref.key)) {
      ValidKeyNotEmpty(Trim(ref.key));
    }
  }

  /** What is wrong with a refused reference, in the order in which it is looked at. */
  lemma SelectorErrorsExactly(ref: RemoteRef)
    ensures var r := FromRemoteRef(ref);
            if Trim(ref.key) == "" then r == Err(Validation("remote_ref.key"))
            else if ref.version.Some? && Trim(ref.version.value) != "" then r == Err(UnsupportedVersionSelector)
            else if ref.property.Some? && Trim(ref.property.value) == "" then r == Err(Validation("remote_ref.property"))
            else if HasOperand(Trim(ref.key)) then r.Ok?
            else r == Err(if "id:" <= Trim(ref.key) || "name:" <= Trim(ref.key) then Validation("remote_ref.key")
                          else UnprefixedSelectorKey)
  {
    ValidKeyExactly(Trim(ref.key));
    NormalizePropertyExactly(ref.property);
  }

  /** An accepted reference yields a selector in normal form, and normal forms are left alone. */
  lemma SelectorNormalForm(ref: RemoteRef)
    requires FromRemoteRef(ref).Ok?
    ensures WellFormed(FromRemoteRef(ref).value)
    ensures var s := FromRemoteRef(ref).value;
            FromRemoteRef(RemoteRef(s.key, s.property, None)) == Ok(s)
  {
    var s := FromRemoteRef(ref).value;
    SelectorAcceptedExactly(ref);
    NormalizePropertyExactly(ref.property);
    TrimIdempotent(IsWhitespace, ref.key);
    NormalizePropertyExactly(s.property);
    SelectorAcceptedExactly(RemoteRef(s.key, s.property, None));
    ValidKeyExactly(s.key);
  }
}

module Lookup {
  import opened Prelude
  import opened Errors
  import opened EncryptedStrings
  import opened Ciphers
  import opened Selectors

  type Sync = seq<EncryptedCipher>

  predicate Live(c: EncryptedCipher) {
    c.deletedDate.None?
  }

  /** A live cipher of the account itself, as opposed to one shared by an organization. */
  predicate Personal(c: EncryptedCipher) {
    Live(c) && c.organizationId.None?
  }

  predicate LiveShared(c: EncryptedCipher) {
    Live(c) && c.organizationId.Some?
  }

  /** The decryption of each cipher under a fixed user key. */
  type Decryptor = EncryptedCipher -> Result<DecryptedCipher, CipherError>

  // ---------- By id ----------

  /** `find_cipher_by_id`: the first live cipher with the id. */
  function FindById(sync: Sync, id: string): Result<EncryptedCipher, ApiError> {
    if sync == [] then Err(CipherNotFound)
    else if sync[0].id == id && Live(sync[0]) then Ok(sync[0])
    else FindById(sync[1..], id)
  }

  /** The id lookup misses exactly when no live cipher has the id; otherwise it takes the first. */
  lemma {:induction false} FindByIdExactly(sync: Sync, id: string)
    ensures FindById(sync, id).Err? <==> forall c | c in sync :: !(Live(c) && c.id == id)
    ensures FindById(sync, id).Err? ==> FindById(sync, id).error == CipherNotFound
    ensures forall before: Sync, c: EncryptedCipher, after: Sync ::
              sync == before + [c] + after && Live(c) && c.id == id
              && (forall b | b in before :: !(Live(b) && b.id == id))
              ==> FindById(sync, id) == Ok(c)
  {
    if sync != [] {
      var rest := sync[1..];
      FindByIdExactly(rest, id);
      assert sync == [sync[0]] + rest;
      forall before: Sync, c: EncryptedCipher, after: Sync
        | sync == before + [c] + after && Live(c) && c.id == id && forall b | b in before :: !(Live(b) && b.id == id)
        ensures FindById(sync, id) == Ok(c)
      {
        if before != [] {
          assert before[0] in before && sync[0] == before[0];
          assert rest == before[1..] + [c] + after;
        } else {
          assert sync[0] == c;
        }
      }
    }
  }

  function ResolveById(sync: Sync, dec: Decryptor, id: string): Result<DecryptedCipher, ClientError> {
    match FindById(sync, id)
    case Err(e) => Err(Api(e))
    case Ok(c) =>
      if c.organizationId.Some? then Err(Api(UnsupportedSharedItem))
      else
        match dec(c)
        case Err(e) => Err(Cipher(e))
        case Ok(d) => Ok(d)
  }

  // ---------- By name ----------

  /** The scan state: the match so far and whether a shared item was skipped. */
  function Scan(sync: Sync, dec: Decryptor, name: string, found: Option<DecryptedCipher>, shared: bool):
    Result<DecryptedCipher, ClientError>
  {
    if sync == [] then
      if found.Some? then Ok(found.value)
      else if shared then Err(Api(UnsupportedSharedItem))
      else Err(Api(CipherNotFound))
    else
      var c, rest := sync[0], sync[1..];
      if !Live(c) then Scan(rest, dec, name, found, shared)
      else if c.organizationId.Some? then Scan(rest, dec, name, found, true)
      else
        match dec(c)
        case Err(e) => Err(Cipher(e))
        case Ok(d) =>
          if d.name != Some(name) then Scan(rest, dec, name, found, shared)
          else if found.Some? then Err(Api(AmbiguousCipherName))
          else Scan(rest, dec, name, Some(d), shared)
  }

  function ResolveByName(sync: Sync, dec: Decryptor, name: string): Result<DecryptedCipher, ClientError> {
    Scan(sync, dec, name, None, false)
  }

  /** `resolve_synced_cipher_by_name`: the loop over the ciphers of the sync response. */
  method ScanByName(sync: Sync, dec: Decryptor, name: string) returns (r: Result<DecryptedCipher, ClientError>)
    ensures r == ResolveByName(sync, dec, name)
  {
    var nameMatch: Option<DecryptedCipher> := None;
    var hasSharedItems := false;
    for i := 0 to |sync|
      invariant Scan(sync[i..], dec, name, nameMatch, hasSharedItems) == ResolveByName(sync, dec, name)
    {
      var cipher := sync[i];
      assert sync[i..][0] == cipher && sync[i..][1..] == sync[i + 1..];
      if cipher.deletedDate.Some? {
        continue;
      }
      if cipher.organizationId.Some? {
        hasSharedItems := true;
        continue;
      }
      var decrypted := dec(cipher);
      if decrypted.Err? {
        return Err(Cipher(decrypted.error));
      }
      if decrypted.value.name == Some(name) {
        if nameMatch.Some? {
          return Err(Api(AmbiguousCipherName));
        }
        nameMatch := Some(decrypted.value);
      }
    }
    if nameMatch.Some? {
      return Ok(nameMatch.value);
    }
    return Err(Api(if hasSharedItems then UnsupportedSharedItem else CipherNotFound));
  }

  predicate AllDecrypt(sync: Sync, dec: Decryptor) {
    forall c | c in sync && Personal(c) :: dec(c).Ok?
  }

  predicate Matches(c: EncryptedCipher, dec: Decryptor, name: string) {
    Personal(c) && dec(c).Ok? && dec(c).value.name == Some(name)
  }

  /** The live personal ciphers that decrypt to the name, with repetitions. */
  function Matching(sync: Sync, dec: Decryptor, name: string): Sync {
    if sync == [] then []
    else (if Matches(sync[0], dec, name) then [sync[0]] else []) + Matching(sync[1..], dec, name)
  }

  predicate HasShared(sync: Sync) {
    exists c | c in sync :: LiveShared(c)
  }

  /** The outcome of the scan, stated without an order whenever everything decrypts. */
  function Verdict(sync: Sync, dec: Decryptor, name: string, found: Option<DecryptedCipher>, shared: bool):
    Option<Result<DecryptedCipher, ClientError>>
  {
    var ms := Matching(sync, dec, name);
    var count := |ms| + if found.Some? then 1 else 0;
    if !AllDecrypt(sync, dec) || count > 1 then None
    else if found.Some? then Some(Ok(found.value))
    else if |ms| == 1 && dec(ms[0]).Ok? then Some(Ok(dec(ms[0]).value))
    else if shared || HasShared(sync) then Some(Err(Api(UnsupportedSharedItem)))
    else Some(Err(Api(CipherNotFound)))
  }

  /** Ambiguity or a decryption failure: the errors whose choice may depend on the order. */
  predicate OrderDependent(r: Result<DecryptedCipher, ClientError>) {
    r.Err? && (r.error == Api(AmbiguousCipherName) || r.error.Cipher?)
  }

  lemma {:induction false} ScanExactly(
      sync: Sync, dec: Decryptor, name: string, found: Option<DecryptedCipher>, shared: bool)
    ensures match Verdict(sync, dec, name, found, shared)
            case Some(r) => Scan(sync, dec, name, found, shared) == r
            case None => OrderDependent(Scan(sync, dec, name, found, shared))
  {
    if sync != [] {
      var c, rest := sync[0], sync[1..];
      assert sync == [c] + rest;
      assert c in sync;
      if !Live(c) || c.organizationId.Some? {
        var shared' := shared || LiveShared(c);
        ScanExactly(rest, dec, name, found, shared');
        assert HasShared(sync) <==> HasShared(rest) || LiveShared(c);
        assert AllDecrypt(sync, dec) <==> AllDecrypt(rest, dec);
      } else if dec(c).Ok? {
        var d := dec(c).value;
        assert AllDecrypt(sync, dec) <==> AllDecrypt(rest, dec);
        assert HasShared(sync) <==> HasShared(rest);
        if d.name != Some(name) {
          ScanExactly(rest, dec, name, found, shared);
        } else if found.None? {
          ScanExactly(rest, dec, name, Some(d), shared);
        }
      }
    }
  }

  /** Every match is a live personal cipher of the vault that decrypts to the name, and conversely. */
  lemma {:induction false} MatchingExactly(sync: Sync, dec: Decryptor, name: string)
    ensures forall c :: c in Matching(sync, dec, name) <==> c in sync && Matches(c, dec, name)
    ensures multiset(Matching(sync, dec, name)) <= multiset(sync)
  {
    if sync != [] {
      MatchingExactly(sync[1..], dec, name);
      assert sync == [sync[0]] + sync[1..];
    }
  }

  /**
   * The name scan returns a cipher exactly when every live personal cipher decrypts and
   * exactly one of them, in the whole vault, has the name; absence exactly when all decrypt,
   * none has the name and nothing live is shared; the shared-item refusal exactly when all
   * decrypt, none has the name and something live is shared.
   */
  lemma NameScanExactly(sync: Sync, dec: Decryptor, name: string)
    ensures forall d :: ResolveByName(sync, dec, name) == Ok(d) <==>
              && AllDecrypt(sync, dec)
              && |Matching(sync, dec, name)| == 1
              && dec(Matching(sync, dec, name)[0]) == Ok(d)
    ensures ResolveByName(sync, dec, name) == Err(Api(CipherNotFound)) <==>
            AllDecrypt(sync, dec) && (forall c | c in sync :: !Matches(c, dec, name)) && !HasShared(sync)
    ensures ResolveByName(sync, dec, name) == Err(Api(UnsupportedSharedItem)) <==>
            AllDecrypt(sync, dec) && (forall c | c in sync :: !Matches(c, dec, name)) && HasShared(sync)
    ensures !AllDecrypt(sync, dec) || |Matching(sync, dec, name)| > 1 <==>
            OrderDependent(ResolveByName(sync, dec, name))
  {
    ScanExactly(sync, dec, name, None, false);
    MatchingExactly(sync, dec, name);
    var ms := Matching(sync, dec, name);
    if ms != [] {
      assert ms[0] in ms;
    }
    assert ms == [] <==> forall c | c in sync :: !Matches(c, dec, name);
  }

  // ---------- Which error, by position ----------

  function Weight(c: EncryptedCipher, dec: Decryptor, name: string): nat {
    if Matches(c, dec, name) then 1 else 0
  }

  /** Within the first `k` items everything decrypts and the second match is reached. */
  predicate SecondMatchBy(sync: Sync, k: nat, dec: Decryptor, name: string, already: nat) {
    k <= |sync| && AllDecrypt(sync[..k], dec) && already + |Matching(sync[..k], dec, name)| == 2
  }

  /** Item `k` is the first that does not decrypt, and at most one match comes before it. */
  predicate FailsFirstAt(sync: Sync, k: nat, dec: Decryptor, name: string, already: nat, e: CipherError) {
    && k < |sync| && Personal(sync[k]) && dec(sync[k]) == Err(e)
    && AllDecrypt(sync[..k], dec) && already + |Matching(sync[..k], dec, name)| <= 1
  }

  lemma PrefixStep(sync: Sync, k: nat, dec: Decryptor, name: string)
    requires k < |sync|
    ensures AllDecrypt(sync[..k + 1], dec) <==>
            (Personal(sync[0]) ==> dec(sync[0]).Ok?) && AllDecrypt(sync[1..][..k], dec)
    ensures |Matching(sync[..k + 1], dec, name)| == Weight(sync[0], dec, name) + |Matching(sync[1..][..k], dec, name)|
  {
    var rest := sync[1..][..k];
    assert sync[..k + 1] == [sync[0]] + rest;
    assert forall c :: c in sync[..k + 1] <==> c == sync[0] || c in rest;
    MatchingHead([sync[0]], rest, dec, name);
    assert [sync[0]][1..] + rest == rest;
  }

  ghost predicate Ambiguous(sync: Sync, dec: Decryptor, name: string, already: nat) {
    exists k: nat :: SecondMatchBy(sync, k, dec, name, already)
  }

  ghost predicate Fails(sync: Sync, dec: Decryptor, name: string, already: nat, e: CipherError) {
    exists k: nat :: FailsFirstAt(sync, k, dec, name, already, e)
  }

  lemma AmbiguousStep(sync: Sync, dec: Decryptor, name: string, already: nat)
    requires sync != [] && already < 2
    ensures Ambiguous(sync, dec, name, already) <==>
            && (Personal(sync[0]) ==> dec(sync[0]).Ok?)
            && Ambiguous(sync[1..], dec, name, already + Weight(sync[0], dec, name))
  {
    var rest, more := sync[1..], already + Weight(sync[0], dec, name);
    if k: nat :| SecondMatchBy(sync, k, dec, name, already) {
      assert sync[..0] == [];
      PrefixStep(sync, k - 1, dec, name);
      assert SecondMatchBy(rest, k - 1, dec, name, more);
    }
    if k: nat :| SecondMatchBy(rest, k, dec, name, more) {
      PrefixStep(sync, k, dec, name);
      assert (Personal(sync[0]) ==> dec(sync[0]).Ok?) ==> SecondMatchBy(sync, k + 1, dec, name, already);
    }
  }

  lemma FailsStep(sync: Sync, dec: Decryptor, name: string, already: nat, e: CipherError)
    requires sync != [] && already < 2
    ensures Fails(sync, dec, name, already, e) <==>
            if Personal(sync[0]) && dec(sync[0]).Err? then dec(sync[0]) == Err(e)
            else Fails(sync[1..], dec, name, already + Weight(sync[0], dec, name), e)
  {
    var rest, more := sync[1..], already + Weight(sync[0], dec, name);
    if k: nat :| FailsFirstAt(sync, k, dec, name, already, e) {
      if k > 0 {
        PrefixStep(sync, k - 1, dec, name);
        assert sync[k] == rest[k - 1];
        assert FailsFirstAt(rest, k - 1, dec, name, more, e);
      }
    }
    if Personal(sync[0]) && dec(sync[0]).Err? {
      assert sync[..0] == [];
      assert dec(sync[0]) == Err(e) ==> FailsFirstAt(sync, 0, dec, name, already, e);
    } else if k: nat :| FailsFirstAt(rest, k, dec, name, more, e) {
      PrefixStep(sync, k, dec, name);
      assert sync[k + 1] == rest[k];
      assert FailsFirstAt(sync, k + 1, dec, name, already, e);
    }
  }

  lemma {:induction false} ScanAmbiguous(sync: Sync, dec: Decryptor, name: string, found: Option<DecryptedCipher>, shared: bool)
    ensures Scan(sync, dec, name, found, shared) == Err(Api(AmbiguousCipherName)) <==>
            Ambiguous(sync, dec, name, if found.Some? then 1 else 0)
  {
    if sync != [] {
      var c, rest := sync[0], sync[1..];
      AmbiguousStep(sync, dec, name, if found.Some? then 1 else 0);
      if !Personal(c) {
        ScanAmbiguous(rest, dec, name, found, shared || LiveShared(c));
      } else if dec(c).Ok? {
        if !Matches(c, dec, name) {
          ScanAmbiguous(rest, dec, name, found, shared);
        } else if found.None? {
          ScanAmbiguous(rest, dec, name, Some(dec(c).value), shared);
        } else {
          assert rest[..0] == [] && SecondMatchBy(rest, 0, dec, name, 2);
        }
      }
    }
  }

  lemma {:induction false} ScanFails(
      sync: Sync, dec: Decryptor, name: string, found: Option<DecryptedCipher>, shared: bool, e: CipherError)
    ensures Scan(sync, dec, name, found, shared) == Err(Cipher(e)) <==>
            Fails(sync, dec, name, if found.Some? then 1 else 0, e)
  {
    if sync != [] {
      var c, rest := sync[0], sync[1..];
      FailsStep(sync, dec, name, if found.Some? then 1 else 0, e);
      if !Personal(c) {
        ScanFails(rest, dec, name, found, shared || LiveShared(c), e);
      } else if dec(c).Ok? {
        if !Matches(c, dec, name) {
          ScanFails(rest, dec, name, found, shared, e);
        } else if found.None? {
          ScanFails(rest, dec, name, Some(dec(c).value), shared, e);
        }
      }
    }
  }

  /**
   * Ambiguity is reported exactly when some prefix of the vault decrypts and holds two matches;
   * a decryption error exactly when its item is the first that fails and fewer than two matches
   * come before it.
   */
  lemma NameErrorsExactly(sync: Sync, dec: Decryptor, name: string, e: CipherError)
    ensures ResolveByName(sync, dec, name) == Err(Api(AmbiguousCipherName)) <==>
            exists k: nat :: SecondMatchBy(sync, k, dec, name, 0)
    ensures ResolveByName(sync, dec, name) == Err(Cipher(e)) <==>
            exists k: nat :: FailsFirstAt(sync, k, dec, name, 0, e)
  {
    ScanAmbiguous(sync, dec, name, None, false);
    ScanFails(sync, dec, name, None, false, e);
  }

  // ---------- Order independence ----------

  lemma MatchingHead(a: Sync, b: Sync, dec: Decryptor, name: string)
    requires a != []
    ensures Matching(a + b, dec, name) ==
            (if Matches(a[0], dec, name) then [a[0]] else []) + Matching(a[1..] + b, dec, name)
  {
    assert (a + b)[0] == a[0] && (a + b)[1..] == a[1..] + b;
  }

  lemma {:induction false} MatchingConcat(a: Sync, b: Sync, dec: Decryptor, name: string)
    ensures Matching(a + b, dec, name) == Matching(a, dec, name) + Matching(b, dec, name)
  {
    if a == [] {
      assert a + b == b;
    } else {
      MatchingConcat(a[1..], b, dec, name);
      MatchingHead(a, b, dec, name);
      MatchingHead(a, [], dec, name);
      assert a + [] == a && a[1..] + [] == a[1..];
    }
  }

  /** The matches of a vault, as a multiset, depend only on the multiset of its ciphers. */
  lemma {:induction false} MatchingPermuted(a: Sync, b: Sync, dec: Decryptor, name: string)
    requires multiset(a) == multiset(b)
    ensures multiset(Matching(a, dec, name)) == multiset(Matching(b, dec, name))
  {
    if a == [] {
      assert |b| == |multiset(b)| == 0;
    } else {
      assert a[0] in multiset(b);
      var i :| 0 <= i < |b| && b[i] == a[0];
      var before, after := b[..i], b[i + 1..];
      assert a == [a[0]] + a[1..];
      assert b == before + [b[i]] + after;
      RemoveOne(a[0], a[1..], before, after);
      MatchingPermuted(a[1..], before + after, dec, name);
      MatchingInsert(before, a[0], after, dec, name);
      MatchingInsert([], a[0], a[1..], dec, name);
    }
  }

  lemma RemoveOne(x: EncryptedCipher, rest: Sync, before: Sync, after: Sync)
    requires multiset([x] + rest) == multiset(before + [x] + after)
    ensures multiset(rest) == multiset(before + after)
  {
    assert multiset([x] + rest) == multiset{x} + multiset(rest);
    assert multiset(before + [x] + after) == multiset(before) + multiset{x} + multiset(after);
    assert multiset(before + after) == multiset(before) + multiset(after);
    assert multiset(rest) == (multiset{x} + multiset(rest)) - multiset{x};
  }

  lemma MatchingInsert(before: Sync, x: EncryptedCipher, after: Sync, dec: Decryptor, name: string)
    ensures multiset(Matching(before + [x] + after, dec, name)) ==
            multiset(Matching([x], dec, name)) + multiset(Matching(before + after, dec, name))
    ensures multiset(Matching([x] + after, dec, name)) ==
            multiset(Matching([x], dec, name)) + multiset(Matching(after, dec, name))
  {
    MatchingConcat(before, after, dec, name);
    MatchingConcat(before + [x], after, dec, name);
    MatchingConcat(before, [x], dec, name);
    MatchingConcat([x], after, dec, name);
  }

  lemma SameMembers(a: Sync, b: Sync)
    requires multiset(a) == multiset(b)
    ensures forall c :: c in a <==> c in b
  {
    forall c ensures c in a <==> c in b {
      assert c in a <==> c in multiset(a);
      assert c in b <==> c in multiset(b);
    }
  }

  lemma SingletonPermuted(a: Sync, b: Sync)
    requires multiset(a) == multiset(b)
    ensures |a| == |b|
    ensures |a| == 1 ==> a[0] == b[0]
  {
    assert |a| == |multiset(a)| && |b| == |multiset(b)|;
    if |a| == 1 {
      assert a[0] in multiset(b);
    }
  }

  /** The verdicts that may not depend on the order of the vault: success and both kinds of miss. */
  predicate SameVerdict(x: Result<DecryptedCipher, ClientError>, y: Result<DecryptedCipher, ClientError>) {
    x == y || (OrderDependent(x) && OrderDependent(y))
  }

  /** Reordering the vault changes nothing but the choice between ambiguity and decryption errors. */
  lemma NameScanPermuted(a: Sync, b: Sync, dec: Decryptor, name: string)
    requires multiset(a) == multiset(b)
    ensures SameVerdict(ResolveByName(a, dec, name), ResolveByName(b, dec, name))
  {
    SameMembers(a, b);
    MatchingPermuted(a, b, dec, name);
    SingletonPermuted(Matching(a, dec, name), Matching(b, dec, name));
    ScanExactly(a, dec, name, None, false);
    ScanExactly(b, dec, name, None, false);
    assert AllDecrypt(a, dec) <==> AllDecrypt(b, dec);
    assert HasShared(a) <==> HasShared(b);
  }

  /** Items in the trash are invisible: inserting them anywhere leaves the result untouched. */
  lemma {:induction false} TrashInvisible(
      a: Sync, c: EncryptedCipher, b: Sync, dec: Decryptor, name: string,
      found: Option<DecryptedCipher>, shared: bool)
    requires !Live(c)
    ensures Scan(a + [c] + b, dec, name, found, shared) == Scan(a + b, dec, name, found, shared)
    decreases |a|
  {
    if a == [] {
      assert a + [c] + b == [c] + b && a + b == b;
      assert ([c] + b)[1..] == b;
    } else {
      var rest := a[1..];
      assert (a + [c] + b)[1..] == rest + [c] + b && (a + b)[1..] == rest + b;
      assert (a + [c] + b)[0] == a[0] == (a + b)[0];
      TrashInvisible(rest, c, b, dec, name, found, shared);
      TrashInvisible(rest, c, b, dec, name, found, true);
      if dec(a[0]).Ok? {
        TrashInvisible(rest, c, b, dec, name, Some(dec(a[0]).value), shared);
      }
    }
  }

  /**
   * Order does matter for the choice of error: a vault whose scan is ambiguous in one order
   * reports the broken item in the other.
   */
  lemma OrderChoosesTheError(x: EncryptedCipher, bad: EncryptedCipher, dec: Decryptor, name: string)
    requires Matches(x, dec, name) && Personal(bad) && dec(bad).Err?
    ensures ResolveByName([x, x, bad], dec, name) == Err(Api(AmbiguousCipherName))
    ensures ResolveByName([bad, x, x], dec, name) == Err(Cipher(dec(bad).error))
  {
    assert [x, x, bad][1..] == [x, bad];
    var d := Some(dec(x).value);
    assert ResolveByName([x, x, bad], dec, name) == Scan([x, bad], dec, name, d, false);
  }

  // ---------- A whole lookup ----------

  function DecryptorOf(prim: Primitives, userKey: SymmetricKey): Decryptor {
    (c: EncryptedCipher) => Decrypt(prim, c, userKey)
  }

  function ResolveCipher(sync: Sync, dec: Decryptor, key: string): Result<DecryptedCipher, ClientError> {
    match FromKey(key)
    case Err(e) => Err(e)
    case Ok(Id(id)) => ResolveById(sync, dec, id)
    case Ok(ByName(name)) => ResolveByName(sync, dec, name)
  }

  /** The document returned for a single property: under `value` and under its own name. */
  function PropertyDocument(property: string, value: string): SecretDocument {
    SecretDocument(map["value" := value][property := value], map[])
  }

  function ReadCipher(c: DecryptedCipher, property: Option<string>): Result<SecretDocument, ClientError> {
    if c.organizationId.Some? then Err(Api(UnsupportedSharedItem))
    else
      match property
      case Some(p) =>
        (match ExtractProperty(c, p)
         case Ok(v) => Ok(PropertyDocument(p, v))
         case Err(e) => Err(Cipher(e)))
      case None =>
        match SecretDocumentOf(c)
        case Ok(d) => Ok(d)
        case Err(e) => Err(Cipher(e))
  }

  /** `resolve_with_cached_sync` after the refresh check, on one snapshot of the vault. */
  function ResolveOn(prim: Primitives, sync: Sync, userKey: SymmetricKey, selector: Selector):
    Result<SecretDocument, ClientError>
  {
    match ResolveCipher(sync, DecryptorOf(prim, userKey), selector.key)
    case Err(e) => Err(e)
    case Ok(c) => ReadCipher(c, selector.property)
  }

  /** Genuine absence of the selected item from a vault snapshot. */
  predicate Absent(prim: Primitives, sync: Sync, userKey: SymmetricKey, key: string) {
    match FromKey(key)
    case Err(_) => false
    case Ok(Id(id)) => forall c | c in sync :: !(Live(c) && c.id == id)
    case Ok(ByName(name)) =>
      var dec := DecryptorOf(prim, userKey);
      && !HasShared(sync)
      && AllDecrypt(sync, dec)
      && forall c | c in sync && Personal(c) && dec(c).Ok? :: dec(c).value.name != Some(name)
  }

  lemma ReadCipherNeverMissing(c: DecryptedCipher, property: Option<string>)
    ensures ReadCipher(c, property).Err? ==>
              ReadCipher(c, property).error.Cipher? || ReadCipher(c, property).error == Api(UnsupportedSharedItem)
  {
  }

  lemma ResolveByIdMissing(sync: Sync, dec: Decryptor, id: string)
    ensures ResolveById(sync, dec, id) == Err(Api(CipherNotFound)) <==>
            forall c | c in sync :: !(Live(c) && c.id == id)
    ensures ResolveById(sync, dec, id) != Err(Api(MissingCachedSync))
  {
    FindByIdExactly(sync, id);
  }

  lemma ResolveByNameMissing(sync: Sync, dec: Decryptor, name: string)
    ensures ResolveByName(sync, dec, name) == Err(Api(CipherNotFound)) <==>
            && !HasShared(sync)
            && AllDecrypt(sync, dec)
            && forall c | c in sync && Personal(c) && dec(c).Ok? :: dec(c).value.name != Some(name)
    ensures ResolveByName(sync, dec, name) != Err(Api(MissingCachedSync))
  {
    NameScanExactly(sync, dec, name);
    ScanExactly(sync, dec, name, None, false);
    assert forall c :: Matches(c, dec, name) <==> Personal(c) && dec(c).Ok? && dec(c).value.name == Some(name);
  }

  /** A lookup reports the item as missing, and so as deleted, exactly when it is absent. */
  lemma NotFoundExactlyWhenAbsent(prim: Primitives, sync: Sync, userKey: SymmetricKey, selector: Selector)
    ensures ResolveOn(prim, sync, userKey, selector) == Err(Api(CipherNotFound)) <==>
            Absent(prim, sync, userKey, selector.key)
    ensures ResolveOn(prim, sync, userKey, selector) != Err(Api(MissingCachedSync))
  {
    var dec := DecryptorOf(prim, userKey);
    var resolved := ResolveCipher(sync, dec, selector.key);
    if resolved.Ok? {
      ReadCipherNeverMissing(resolved.value, selector.property);
    }
    var lookup := FromKey(selector.key);
    if lookup.Ok? {
      match lookup.value
      case Id(id) => ResolveByIdMissing(sync, dec, id);
      case ByName(name) => ResolveByNameMissing(sync, dec, name);
    } else {
      assert lookup.error == UnprefixedSelectorKey;
    }
  }

  /**
   * Absence by id: no item outside the trash has the id. Absence by name: every item outside the
   * trash belongs to the account, decrypts, and has another name or none.
   */
  lemma AbsentExactly(prim: Primitives, sync: Sync, userKey: SymmetricKey, operand: string)
    ensures Absent(prim, sync, userKey, "id:" + operand) <==>
            forall c | c in sync && c.deletedDate.None? :: c.id != operand
    ensures Absent(prim, sync, userKey, "name:" + operand) <==>
            forall c | c in sync && c.deletedDate.None? ::
              && c.organizationId.None? && Decrypt(prim, c, userKey).Ok?
              && Decrypt(prim, c, userKey).value.name != Some(operand)
  {
    KeysExactly("id:" + operand, operand);
    KeysExactly("name:" + operand, operand);
    var dec := DecryptorOf(prim, userKey);
    assert forall c :: dec(c) == Decrypt(prim, c, userKey);
  }

  // ---------- What is served ----------

  lemma {:induction false} FoundByIdIsLive(sync: Sync, id: string)
    ensures FindById(sync, id).Ok? ==>
              var c := FindById(sync, id).value; c in sync && Live(c) && c.id == id
  {
    if sync != [] {
      FoundByIdIsLive(sync[1..], id);
      assert sync == [sync[0]] + sync[1..];
    }
  }

  /** The first live cipher with the id decides the outcome, whatever comes after it. */
  lemma FirstWithIdDecides(before: Sync, c: EncryptedCipher, after: Sync, dec: Decryptor, id: string)
    requires Live(c) && c.id == id && forall b | b in before :: !(Live(b) && b.id == id)
    ensures ResolveById(before + [c] + after, dec, id) ==
            if !Personal(c) then Err(Api(UnsupportedSharedItem))
            else match dec(c) case Ok(d) => Ok(d) case Err(e) => Err(Cipher(e))
  {
    FindByIdExactly(before + [c] + after, id);
  }

  /** The cipher is live, belongs to the account, decrypts, and is the one the key names. */
  predicate Serves(c: EncryptedCipher, dec: Decryptor, key: string) {
    && Personal(c) && dec(c).Ok?
    && match FromKey(key)
       case Err(_) => false
       case Ok(Id(id)) => c.id == id
       case Ok(ByName(name)) => dec(c).value.name == Some(name)
  }

  /** A whole lookup goes by the prefix of the key. */
  lemma PrefixDecidesLookup(sync: Sync, dec: Decryptor, operand: string)
    ensures ResolveCipher(sync, dec, "id:" + operand) == ResolveById(sync, dec, operand)
    ensures ResolveCipher(sync, dec, "name:" + operand) == ResolveByName(sync, dec, operand)
  {
    KeysExactly("id:" + operand, operand);
    KeysExactly("name:" + operand, operand);
  }

  lemma ResolvedServes(sync: Sync, dec: Decryptor, key: string)
    requires ResolveCipher(sync, dec, key).Ok?
    ensures exists c | c in sync :: Serves(c, dec, key) && dec(c) == Ok(ResolveCipher(sync, dec, key).value)
  {
    match FromKey(key).value
    case Id(id) =>
      FoundByIdIsLive(sync, id);
      assert Serves(FindById(sync, id).value, dec, key);
    case ByName(name) =>
      NameScanExactly(sync, dec, name);
      MatchingExactly(sync, dec, name);
      var c := Matching(sync, dec, name)[0];
      assert c in Matching(sync, dec, name) && Serves(c, dec, key);
  }

  /** What one cipher is answered with: the document of one property, or of the whole item. */
  ghost predicate AnswersWith(c: DecryptedCipher, property: Option<string>, r: Result<SecretDocument, ClientError>) {
    match property
    case Some(p) =>
      (match ExtractProperty(c, p)
       case Err(e) => r == Err(Cipher(e))
       case Ok(v) =>
         && r.Ok? && r.value.metadata == map[]
         && r.value.data.Keys == {"value", p} && r.value.data["value"] == v && r.value.data[p] == v)
    case None =>
      if Entries(c) != [] && Distinct(Entries(c)) then r.Ok? && r.value.metadata == map[] && Holds(r.value.data, Entries(c))
      else
        && r.Err? && r.error.Cipher?
        && if Entries(c) == [] then r.error.cipher == NoExtractableFields(c.id)
           else RepeatedFirst(Entries(c), r.error.cipher)
  }

  lemma ReadAnswers(c: DecryptedCipher, property: Option<string>)
    requires c.organizationId.None?
    ensures AnswersWith(c, property, ReadCipher(c, property))
  {
    if property.None? {
      WholeItemExactly(c);
    }
  }

  /**
   * The answer of a lookup: the error of finding the cipher; or, for the cipher found, the
   * property's value under `value` and under the property's name and nothing else, or the whole
   * item's entries; or the error of that read.
   */
  lemma LookupAnswers(prim: Primitives, sync: Sync, userKey: SymmetricKey, selector: Selector)
    ensures match ResolveCipher(sync, DecryptorOf(prim, userKey), selector.key)
            case Err(e) => ResolveOn(prim, sync, userKey, selector) == Err(e)
            case Ok(c) => AnswersWith(c, selector.property, ResolveOn(prim, sync, userKey, selector))
  {
    var dec := DecryptorOf(prim, userKey);
    var resolved := ResolveCipher(sync, dec, selector.key);
    if resolved.Ok? {
      ResolvedServes(sync, dec, selector.key);
      var enc :| enc in sync && Serves(enc, dec, selector.key) && dec(enc) == Ok(resolved.value);
      KeepsOwner(prim, enc, userKey);
      ReadAnswers(resolved.value, selector.property);
    }
  }

  lemma KeepsOwner(prim: Primitives, cipher: EncryptedCipher, userKey: SymmetricKey)
    requires Decrypt(prim, cipher, userKey).Ok?
    ensures Decrypt(prim, cipher, userKey).value.organizationId == cipher.organizationId
  {
    StepsOfDecrypt(prim, cipher, userKey);
  }

  /**
   * Whatever a lookup returns was read from a live cipher of the account itself that the
   * selector names: items in the trash and items shared by an organization are never served.
   */
  lemma ServedFromLivePersonalItem(prim: Primitives, sync: Sync, userKey: SymmetricKey, selector: Selector)
    requires ResolveOn(prim, sync, userKey, selector).Ok?
    ensures exists c | c in sync ::
              && c.deletedDate.None? && c.organizationId.None? && Decrypt(prim, c, userKey).Ok?
              && NamesItem(selector.key, c.id, Decrypt(prim, c, userKey).value.name)
              && AnswersWith(Decrypt(prim, c, userKey).value, selector.property, ResolveOn(prim, sync, userKey, selector))
  {
    var dec := DecryptorOf(prim, userKey);
    ResolvedServes(sync, dec, selector.key);
    LookupAnswers(prim, sync, userKey, selector);
    var c :| c in sync && Serves(c, dec, selector.key) && dec(c) == Ok(ResolveCipher(sync, dec, selector.key).value);
    KeysExactly(selector.key, Operand(FromKey(selector.key).value));
  }

  /** The key names the item: `id:` and its id, or `name:` and its decrypted name. */
  predicate NamesItem(key: string, id: string, name: Option<string>) {
    key == "id:" + id || (name.Some? && key == "name:" + name.value)
  }
}
