/** library/cloudera_manager_install_host.py: install the Cloudera Manager
    agent on those of the requested hosts that Cloudera Manager does not
    know yet, one host at a time. */
module InstallHost {
  import opened Ansible
  import opened CmApi
  import opened HostFilter

  /** The module options the outcome depends on: the `host` list and the
      SSH credentials; the other host_install arguments are passed through
      unchanged. */
  datatype Params = Params(host: seq<string>, credentials: Credentials)

  /** What exit_json reports: the `host` map when nothing is installed,
      nothing else after an install. */
  datatype Payload = NoHosts | Host(host: map<string, HostRecord>)

  const AlreadyExist := "host already exist"

  /** This module always installs one host at a time. */
  const ParallelInstallCount := 1

  /** A whole run of main: `inventory` is what `get_all_hosts` returns,
      `install` how the remote install command ended. */
  function InstallHostRun(p: Params, inventory: seq<ApiHost>, install: InstallReply): (r: Run<Payload>)
    ensures |r.calls| <= 1
    ensures ExclusiveViolation(p.credentials).Some? ==>
              r == Run(Fail(false, ExclusiveViolation(p.credentials).value), [])
    ensures r.calls != [] ==> r.calls[0].HostInstall? && r.calls[0].parallelInstallCount == ParallelInstallCount
    ensures r.calls != [] && install.Raised? ==> r.outcome == Fail(false, install.error)
    ensures r.calls != [] && install.Finished? && !install.success ==> r.outcome == Fail(false, install.resultMessage)
    ensures r.calls != [] && install.Finished? && install.success ==>
              r.outcome == Exit(true, Some(install.resultMessage), NoHosts)
    ensures r.outcome.Changed() ==> r.calls != [] && install.Finished? && install.success
  {
    match ExclusiveViolation(p.credentials)
    case Some(msg) => Run(Fail(false, msg), [])
    case None =>
      match Filter(p.host, map[], Inventory(inventory))
      case IndexError => Run(Crash(IndexErrorName), [])
      case Filtered(remaining, rcHosts) =>
        if remaining == [] then Run(Exit(false, Some(AlreadyExist), Host(rcHosts)), [])
        else
          var call := HostInstall(remaining, ParallelInstallCount, p.credentials);
          match install
          case Raised(e) => Run(Fail(false, e), [call])
          case Finished(success, msg) =>
            if !success then Run(Fail(false, msg), [call])
            else Run(Exit(true, Some(msg), NoHosts), [call])
  }

  /** main: the argument check, the inventory map, the filter loop over the
      `host` list object, and the install; the final exit_json is never
      reached. */
  method Execute(p: Params, inventory: seq<ApiHost>, install: InstallReply) returns (r: Run<Payload>)
    ensures r == InstallHostRun(p, inventory, install)
  {
    var violation := ExclusiveViolation(p.credentials);
    if violation.Some? {
      return Run(Fail(false, violation.value), []);
    }
    var cmHosts := BuildInventory(inventory);
    var host := new PyList(p.host);
    var rcHosts, crashed := FilterKnown(host, cmHosts, map[]);
    if crashed {
      return Run(Crash(IndexErrorName), []);
    }
    if |host.items| == 0 {
      return Run(Exit(false, Some(AlreadyExist), Host(rcHosts)), []);
    }
    var call := HostInstall(host.items, ParallelInstallCount, p.credentials);
    match install
    case Raised(e) =>
      r := Run(Fail(false, e), [call]);
    case Finished(success, msg) =>
      if !success {
        return Run(Fail(false, msg), [call]);
      }
      r := Run(Exit(true, Some(msg), NoHosts), [call]);
  }

  /** The install is issued only for the requested hosts that are not in
      the inventory, in their requested order, and only if there is one. */
  lemma InstallOnlyUnknown(p: Params, inventory: seq<ApiHost>, install: InstallReply)
    ensures var r := InstallHostRun(p, inventory, install);
            r.calls != [] ==>
              r.calls == [HostInstall(Unknown(p.host, Inventory(inventory)), ParallelInstallCount, p.credentials)] &&
              Unknown(p.host, Inventory(inventory)) != []
  {
    if Filter(p.host, map[], Inventory(inventory)).Filtered? {
      FilterIsPartition(p.host, map[], Inventory(inventory));
    }
  }

  /** Conversely, when the filter finishes and some requested host is not
      registered, the install is issued, once, for exactly those hosts. */
  lemma InstallWhenPending(p: Params, inventory: seq<ApiHost>, install: InstallReply)
    requires ExclusiveViolation(p.credentials).None?
    requires Filter(p.host, map[], Inventory(inventory)).Filtered?
    requires Unknown(p.host, Inventory(inventory)) != []
    ensures InstallHostRun(p, inventory, install).calls ==
              [HostInstall(Unknown(p.host, Inventory(inventory)), ParallelInstallCount, p.credentials)]
  {
    FilterIsPartition(p.host, map[], Inventory(inventory));
  }

  /** When nothing is left to install, the run reports the inventory
      record of each requested host under `host`. */
  lemma NothingToInstall(p: Params, inventory: seq<ApiHost>, install: InstallReply)
    requires ExclusiveViolation(p.credentials).None?
    requires InstallHostRun(p, inventory, install).calls == []
    requires !InstallHostRun(p, inventory, install).outcome.Crash?
    ensures forall h :: h in p.host ==> h in Inventory(inventory)
    ensures InstallHostRun(p, inventory, install) ==
              Run(Exit(false, Some(AlreadyExist), Host(KnownReply(p.host, Inventory(inventory)))), [])
  {
    FilterIsPartition(p.host, map[], Inventory(inventory));
    assert map[] + KnownReply(p.host, Inventory(inventory)) == KnownReply(p.host, Inventory(inventory));
    forall h | h in p.host ensures h in Inventory(inventory) {
      UnknownMembers(p.host, Inventory(inventory), h);
    }
  }
}
