/** `check_credentials`: the login form's pair against the stored secrets. */
module Credentials {
  import opened Wrappers

  /** `st.secrets[key]`; a missing key raises KeyError, modelled as None. */
  function Secret(secrets: map<string, string>, key: string): Option<string> {
    if key in secrets then Some(secrets[key]) else None
  }

  /**
   * Both fields must equal the stored "username" and "password" exactly
   * (case-sensitive); when either secret is missing the KeyError is caught
   * and the check fails.
   */
  function CheckCredentials(secrets: map<string, string>, username: string, password: string): (ok: bool)
    ensures ok <==>
      && "username" in secrets && "password" in secrets
      && username == secrets["username"] && password == secrets["password"]
  {
    match (Secret(secrets, "username"), Secret(secrets, "password"))
    case (Some(cloudUsername), Some(cloudPassword)) =>
      username == cloudUsername && password == cloudPassword
    case _ => false
  }

  /** At most one pair passes the check: the stored one. */
  lemma CredentialsUnique(secrets: map<string, string>, u1: string, p1: string, u2: string, p2: string)
    requires CheckCredentials(secrets, u1, p1) && CheckCredentials(secrets, u2, p2)
    ensures u1 == u2 && p1 == p2
  {
  }

  /** With a secret missing, no pair passes. */
  lemma MissingSecretRejects(secrets: map<string, string>, username: string, password: string)
    requires "username" !in secrets || "password" !in secrets
    ensures !CheckCredentials(secrets, username, password)
  {
  }
}
