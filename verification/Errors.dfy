// The error types of the Bitwarden client boundary, the rule that says which of them may be
// answered from a stale cache, and the map from errors to HTTP statuses.

module Errors {

  datatype CryptoError =
    | InvalidKeyLength(actual: nat)
    | InvalidEncryptionTypeHeader
    | LegacyNoMacDisabled
    | UnsupportedEncryptionType(encryptionType: nat)
    | InvalidPartCount
    | InvalidBase64(part: string)
    | InvalidIvLength(actual: nat)
    | InvalidMacLength(actual: nat)
    | InvalidCiphertextLength(actual: nat)
    | MacVerificationFailed
    | DecryptFailed
    | InvalidUtf8

  datatype CipherError =
    | CryptoFailure(error: CryptoError)
    | BlankProperty
    | MissingProperty(property: string)
    | NoExtractableFields(id: string)
    | DuplicateDocumentField(field: string)
    | UnsupportedAttachment

  datatype KeyDerivationError =
    | KdfParameter
    | KdfCrypto(error: CryptoError)

  datatype ApiError =
    | InvalidKdfMemoryLimit
    | RefreshThrottled
    | UnlockTaskFailed
    | Http
    | InvalidBaseUrl
    | HttpStatus(endpoint: string, status: nat)
    | ResponseTooLarge(endpoint: string)
    | InvalidJson(endpoint: string)
    | UnsupportedKdfType(kdfType: nat)
    | MissingKdfParameter(parameter: string)
    | MissingMasterPasswordUnlock
    | MissingMasterKeyWrappedUserKey
    | MissingCachedSync
    | CipherNotFound
    | AmbiguousCipherName
    | UnsupportedSharedItem

  datatype ClientError =
    | Validation(field: string)
    | Crypto(crypto: CryptoError)
    | Cipher(cipher: CipherError)
    | KeyDerivation(kdf: KeyDerivationError)
    | Api(api: ApiError)
    | InvalidEndpoint
    | InsecureEndpoint
    | UnsupportedVersionSelector
    | UnprefixedSelectorKey
  {
    /** Transient upstream failures, the only ones a stale vault may answer. */
    predicate PermitsStaleCache() {
      && Api?
      && match api
         case Http => true
         case HttpStatus(_, status) => status == 408 || status == 429 || 500 <= status <= 599
         case _ => false
    }

    /** The errors that a login-and-sync attempt can end with. */
    predicate IsFetchError() {
      match this
      case KeyDerivation(_) => true
      case Crypto(_) => true
      case Api(error) =>
        !(error.RefreshThrottled? || error.MissingCachedSync? || error.CipherNotFound?
          || error.AmbiguousCipherName? || error.UnsupportedSharedItem?)
      case _ => false
    }
  }

  /** A failure that may be transient: no response, or the status 408, 429 or one of the 500s. */
  predicate IsTransient(e: ClientError) {
    || e == Api(Http)
    || (e.Api? && e.api.HttpStatus? && (e.api.status == 408 || e.api.status == 429 || 500 <= e.api.status <= 599))
  }

  lemma TransientExactly(e: ClientError)
    ensures e.PermitsStaleCache() <==> IsTransient(e)
  {
  }

  datatype ErrorKind =
    | NoError | Auth | InvalidRequest | UnsupportedVersion | PolicyDenied
    | ItemNotFound | PropertyNotFound | AmbiguousDocument | AmbiguousSelector
    | AttachmentUnsupported | SharedItemUnsupported
    | UpstreamHttp | UpstreamStatus | UpstreamBackoff | UpstreamPayload
    | CryptoKind | KeyDerivationKind | KdfParameters | SyncPayload | Endpoint
    | Overloaded | RequestTimeout

  /** The status and metric label of one answered request. */
  datatype StatusKind = StatusKind(status: nat, kind: ErrorKind)

  function ProviderStatusAndKind(error: ClientError): StatusKind {
    match error
    case Validation(_) => StatusKind(400, InvalidRequest)
    case Cipher(BlankProperty) => StatusKind(400, InvalidRequest)
    case Cipher(MissingProperty(_)) => StatusKind(422, PropertyNotFound)
    case Api(CipherNotFound) => StatusKind(404, ItemNotFound)
    case Cipher(DuplicateDocumentField(_)) => StatusKind(409, AmbiguousDocument)
    case Cipher(UnsupportedAttachment) => StatusKind(422, AttachmentUnsupported)
    case Api(AmbiguousCipherName) => StatusKind(409, AmbiguousSelector)
    case Api(UnsupportedSharedItem) => StatusKind(422, SharedItemUnsupported)
    case Api(RefreshThrottled) => StatusKind(503, UpstreamBackoff)
    case Api(Http) => StatusKind(502, UpstreamHttp)
    case Api(HttpStatus(_, _)) => StatusKind(502, UpstreamStatus)
    case Api(ResponseTooLarge(_)) => StatusKind(502, UpstreamPayload)
    case Api(InvalidJson(_)) => StatusKind(502, UpstreamPayload)
    case Crypto(_) => StatusKind(500, CryptoKind)
    case Cipher(CryptoFailure(_)) => StatusKind(500, CryptoKind)
    case Cipher(NoExtractableFields(_)) => StatusKind(500, CryptoKind)
    case Api(UnlockTaskFailed) => StatusKind(500, KeyDerivationKind)
    case KeyDerivation(_) => StatusKind(500, KeyDerivationKind)
    case Api(UnsupportedKdfType(_)) => StatusKind(500, KdfParameters)
    case Api(InvalidKdfMemoryLimit) => StatusKind(500, KdfParameters)
    case Api(MissingKdfParameter(_)) => StatusKind(500, KdfParameters)
    case Api(MissingMasterPasswordUnlock) => StatusKind(500, SyncPayload)
    case Api(MissingMasterKeyWrappedUserKey) => StatusKind(500, SyncPayload)
    case Api(MissingCachedSync) => StatusKind(500, SyncPayload)
    case Api(InvalidBaseUrl) => StatusKind(500, Endpoint)
    case InvalidEndpoint => StatusKind(500, Endpoint)
    case InsecureEndpoint => StatusKind(500, Endpoint)
    case UnsupportedVersionSelector => StatusKind(400, UnsupportedVersion)
    case UnprefixedSelectorKey => StatusKind(400, InvalidRequest)
  }

  /** Which errors each status stands for; 500 stands for all the others. */
  lemma StatusesExactly(e: ClientError)
    ensures var status := ProviderStatusAndKind(e).status;
            && (status == 400 <==>
                e.Validation? || e.UnsupportedVersionSelector? || e.UnprefixedSelectorKey? || e == Cipher(BlankProperty))
            && (status == 404 <==> e == Api(CipherNotFound))
            && (status == 409 <==> e == Api(AmbiguousCipherName) || (e.Cipher? && e.cipher.DuplicateDocumentField?))
            && (status == 422 <==>
                || e == Api(UnsupportedSharedItem) || e == Cipher(UnsupportedAttachment)
                || (e.Cipher? && e.cipher.MissingProperty?))
            && (status == 502 <==>
                e.Api? && (e.api.Http? || e.api.HttpStatus? || e.api.ResponseTooLarge? || e.api.InvalidJson?))
            && (status == 503 <==> e == Api(RefreshThrottled))
            && (status == 400 || status == 404 || status == 409 || status == 422 || status == 502 || status == 503 || status == 500)
  {
  }

  /** Which errors each metric label stands for. */
  lemma KindsExactly(e: ClientError)
    ensures var kind := ProviderStatusAndKind(e).kind;
            && (kind == InvalidRequest <==> e.Validation? || e.UnprefixedSelectorKey? || e == Cipher(BlankProperty))
            && (kind == UnsupportedVersion <==> e.UnsupportedVersionSelector?)
            && (kind == ItemNotFound <==> e == Api(CipherNotFound))
            && (kind == PropertyNotFound <==> e.Cipher? && e.cipher.MissingProperty?)
            && (kind == AmbiguousDocument <==> e.Cipher? && e.cipher.DuplicateDocumentField?)
            && (kind == AmbiguousSelector <==> e == Api(AmbiguousCipherName))
            && (kind == AttachmentUnsupported <==> e == Cipher(UnsupportedAttachment))
            && (kind == SharedItemUnsupported <==> e == Api(UnsupportedSharedItem))
            && (kind == UpstreamHttp <==> e == Api(Http))
            && (kind == UpstreamStatus <==> e.Api? && e.api.HttpStatus?)
            && (kind == UpstreamBackoff <==> e == Api(RefreshThrottled))
            && (kind == UpstreamPayload <==> e.Api? && (e.api.ResponseTooLarge? || e.api.InvalidJson?))
            && (kind == CryptoKind <==>
                e.Crypto? || (e.Cipher? && (e.cipher.CryptoFailure? || e.cipher.NoExtractableFields?)))
            && (kind == KeyDerivationKind <==> e.KeyDerivation? || e == Api(UnlockTaskFailed))
            && (kind == KdfParameters <==>
                e.Api? && (e.api.UnsupportedKdfType? || e.api.InvalidKdfMemoryLimit? || e.api.MissingKdfParameter?))
            && (kind == SyncPayload <==>
                e.Api? && (e.api.MissingMasterPasswordUnlock? || e.api.MissingMasterKeyWrappedUserKey? || e.api.MissingCachedSync?))
            && (kind == Endpoint <==> e == Api(InvalidBaseUrl) || e.InvalidEndpoint? || e.InsecureEndpoint?)
            && kind != NoError && kind != Auth && kind != PolicyDenied && kind != Overloaded && kind != RequestTimeout
  {
  }
}
