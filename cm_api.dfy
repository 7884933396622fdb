/** The Cloudera Manager API as the modules see it through the cm_api
    client: the records its reads return and the mutating calls the modules
    issue. Every read is a snapshot handed to the model; every mutating call
    is recorded in a log instead of being performed. */
module CmApi {
  import opened Ansible

  /** The result of a cm_api call that may raise ApiException; `Err`
      carries the exception's text, `str(e)`. */
  datatype Result<T> = Ok(value: T) | Err(error: string)

  /** One entry of `get_config('full')`, keyed by the setting's name. The
      client's record has more attributes; these are the ones the config
      module reads, plus the two descriptive ones it drops. */
  datatype ApiConfig = ApiConfig(name: string, default: Option<string>, value: Option<string>,
                                 displayName: string, description: string)

  /** A user as `get_user` and `get_all_users` return it. */
  datatype ApiUser = ApiUser(name: string, roles: seq<string>)

  /** The value of one attribute of a host object's `__dict__`: either a
      string or something else (None, a number, a list, a nested object). */
  datatype AttrValue = Str(s: string) | NonStr

  /** A host of `get_all_hosts`: its `hostname` attribute and its whole
      attribute dictionary. */
  datatype ApiHost = ApiHost(hostname: string, attributes: map<string, AttrValue>)

  /** The remote host-install command after `wait()` and `fetch()`, or the
      ApiException that `host_install` raised. */
  datatype InstallReply = Raised(error: string) | Finished(success: bool, resultMessage: string)

  /** The mutating calls of the four modules. */
  datatype Call =
    | UpdateConfig(update: map<string, Option<string>>)
    | DeleteUser(name: string)
    | UpdateUser(name: string, password: Option<string>, roles: Option<seq<string>>)
    | CreateUser(name: string, password: Option<string>, roles: Option<seq<string>>)
    | HostInstall(hostNames: seq<string>, parallelInstallCount: int, credentials: Credentials)

  /** A whole module run: how it ended and the mutating calls it issued, in
      order (a call that raised is still in the log). */
  datatype Run<P> = Run(outcome: Outcome<P>, calls: seq<Call>)
}
