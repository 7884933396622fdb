/** The parts of Ansible's module harness that the four modules rely on:
    the terminal outcome of a run (fail_json, exit_json, or an uncaught
    Python exception) and the mutually-exclusive parameter check that
    AnsibleModule performs before the module's own code runs. */
module Ansible {

  datatype Option<T> = None | Some(value: T)

  /** How one module run ends. `fail_json` and `exit_json` both end the
      run; `Crash` is an exception the module does not catch, which Ansible
      reports as a module failure with a traceback. */
  datatype Outcome<P> =
    | Fail(changed: bool, msg: string)
    | Exit(changed: bool, message: Option<string>, payload: P)
    | Crash(exception: string)
  {
    /** The `changed` flag Ansible reports; a crash reports none. */
    predicate Changed() {
      (Fail? || Exit?) && changed
    }
  }

  /** The SSH credential parameters of the host-install modules; `Some`
      means the caller supplied the parameter. */
  datatype Credentials = Credentials(password: Option<string>, privateKey: Option<string>, passphrase: Option<string>)

  const MutuallyExclusivePrefix := "parameters are mutually exclusive: "

  /** The mutually_exclusive rules [password, private_key] and
      [password, passphrase]: the failure message when any pair is supplied
      together, naming every violated pair in declaration order. */
  function ExclusiveViolation(c: Credentials): (r: Option<string>)
    ensures r.None? <==> !(c.password.Some? && (c.privateKey.Some? || c.passphrase.Some?))
    ensures c.password.Some? && c.privateKey.Some? && c.passphrase.None? ==>
              r == Some(MutuallyExclusivePrefix + "password|private_key")
    ensures c.password.Some? && c.privateKey.None? && c.passphrase.Some? ==>
              r == Some(MutuallyExclusivePrefix + "password|passphrase")
    ensures c.password.Some? && c.privateKey.Some? && c.passphrase.Some? ==>
              r == Some(MutuallyExclusivePrefix + "password|private_key, password|passphrase")
  {
    var withKey := c.password.Some? && c.privateKey.Some?;
    var withPhrase := c.password.Some? && c.passphrase.Some?;
    if withKey && withPhrase then Some(MutuallyExclusivePrefix + "password|private_key, password|passphrase")
    else if withKey then Some(MutuallyExclusivePrefix + "password|private_key")
    else if withPhrase then Some(MutuallyExclusivePrefix + "password|passphrase")
    else None
  }
}
