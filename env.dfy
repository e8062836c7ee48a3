/** The settings both servers read from the environment. */
module Env {
  import opened Text

  const DefaultPassword := "demo123"

  /** `process.env.IH_PASSWORD || 'demo123'`: an unset or empty variable falls back. */
  function Password(env: Option<string>): (p: string)
    ensures p != ""
    ensures Truthy(env) ==> p == env.value
    ensures !Truthy(env) ==> p == DefaultPassword
  {
    if Truthy(env) then env.value else DefaultPassword
  }
}
