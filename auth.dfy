/**
 * The shared-secret check of the admin API. `CheckAuth` is the guard of the
 * write endpoint (`x-admin-password` header against ADMIN_PASSWORD); `Login`
 * is the password check behind the admin console's sign-in form. The secret
 * is a parameter, `None` when ADMIN_PASSWORD is not set.
 */
module AdminAuth {
  import opened JsValues
  import opened Http

  /**
   * `!!ADMIN_PASSWORD && header === ADMIN_PASSWORD`: a secret is configured
   * (set and not empty) and the caller presented exactly that string.
   */
  predicate CheckAuth(header: Option<string>, secret: Option<string>): (ok: bool)
    // an unset or empty ADMIN_PASSWORD lets nobody in, not even a request without the header
    ensures !Truthy(secret) ==> !ok
    // a request passes only with a non-empty header that is exactly the password
    ensures ok ==> Truthy(header) && header.value == secret.value
  {
    Truthy(secret) && header == secret
  }

  /** The answer of the sign-in endpoint. */
  function Login(httpMethod: string, password: Option<string>, secret: Option<string>): (r: Response)
    // exactly one of the four statuses, decided in this order:
    ensures r.status in {Ok, Unauthorized, MethodNotAllowed, InternalServerError}
    // the method first,
    ensures r.status == MethodNotAllowed <==> httpMethod != "POST"
    // then the configuration, whatever password was sent,
    ensures r.status == InternalServerError <==> httpMethod == "POST" && !Truthy(secret)
    // then the password: accepted exactly when the write endpoints would accept it as the header
    ensures r.status == Ok <==> httpMethod == "POST" && CheckAuth(password, secret)
    ensures r.status == Unauthorized <==> httpMethod == "POST" && Truthy(secret) && !CheckAuth(password, secret)
    ensures r.status == Ok <==> r.body == Acknowledged
  {
    if httpMethod != "POST" then Response(MethodNotAllowed, NoBody)
    else if !Truthy(secret) then Response(InternalServerError, Error("ADMIN_PASSWORD not configured on the server"))
    else if password == secret then Response(Ok, Acknowledged)
    else Response(Unauthorized, Error("Wrong password"))
  }
}
