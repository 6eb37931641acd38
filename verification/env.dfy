/** getFromEnv: read one environment variable, warning when it is unset. */
module Env {
  import opened Optional

  /** The variable's value, if set, and whether a warning naming it was logged. */
  datatype Lookup = Lookup(value: Option<string>, warnedUnset: bool)

  /** The process environment is the map `env`; an unset variable is one missing from it. */
  function GetFromEnv(env: map<string, string>, key: string): (r: Lookup)
    ensures r.value.Some? <==> key in env
    ensures key in env ==> r.value.value == env[key]
    ensures r.warnedUnset <==> key !in env
  {
    if key !in env then Lookup(None, true)
    else Lookup(Some(env[key]), false)
  }
}
