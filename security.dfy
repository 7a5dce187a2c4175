/**
 * `SecurityService` (services/security_service.py): the API secret is read
 * once at construction and never changed; a provided key passes when it is
 * present, non-empty and equal to that secret.
 */
module Security {
  import opened Wrappers

  /** `apiKey` is `os.getenv("API_SECRET_KEY")`: `None` when the variable is unset. */
  datatype SecurityService = SecurityService(apiKey: Option<string>)
  {
    /** `verify_api_key`: a missing or empty key is falsy and rejected; otherwise compare with the secret. */
    function VerifyApiKey(providedKey: Option<string>): (ok: bool)
      ensures providedKey == None ==> !ok
      ensures providedKey == Some("") ==> !ok
      ensures (apiKey == None || apiKey == Some("")) ==> !ok
      ensures ok <==> providedKey.Some? && providedKey.value != "" && apiKey == providedKey
    {
      match providedKey
      case None => false
      case Some(key) => if key == "" then false else Some(key) == apiKey
    }
  }
}
