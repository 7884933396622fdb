/** library/cloudera_manager_install_hosts.py: install the Cloudera
    Manager agent on those of the requested hosts that Cloudera Manager
    does not know yet, through one remote host-install command, with a
    configurable parallelism. */
module InstallHosts {
  import opened Ansible
  import opened CmApi
  import opened HostFilter

  /** The module options the outcome depends on; the other host_install
      arguments are passed through unchanged. */
  datatype Params = Params(hosts: seq<string>, credentials: Credentials, parallelInstallCount: int)

  /** The `hosts` that exit_json reports. */
  datatype Payload = Hosts(hosts: map<string, HostRecord>)

  const AlreadyExist := "hosts already exist"
  /** The exception do_install's `except` clause raises itself: it reads
      `changed`, which is a local of main, not of do_install. */
  const NameErrorName := "NameError"

  /** The object `cmInstall`: the fields that clean_hosts and do_install
      read and update. */
  class CmInstall {
    var changed: bool
    var hosts: PyList
    var hostsToInstall: PyList
    var hostsReply: map<string, HostRecord>
    var credentials: Credentials
    var parallelInstallCount: int

    /** `hosts_to_install` is bound to the very list object `hosts`. */
    constructor (p: Params)
      ensures fresh(hosts) && hostsToInstall == hosts && hosts.items == p.hosts
      ensures hostsReply == map[] && !changed
      ensures credentials == p.credentials && parallelInstallCount == p.parallelInstallCount
    {
      var requested := new PyList(p.hosts);
      changed := false;
      hosts := requested;
      hostsToInstall := requested;
      hostsReply := map[];
      credentials := p.credentials;
      parallelInstallCount := p.parallelInstallCount;
    }

    /** clean_hosts: `inventory` is what `get_all_hosts` returns. The
        result is the way the run ends here, if it does. */
    method CleanHosts(postinstall: bool, inventory: seq<ApiHost>) returns (exit: Option<Outcome<Payload>>)
      requires hostsToInstall == hosts
      modifies this, hostsToInstall
      ensures hosts == old(hosts) && hostsToInstall == old(hostsToInstall)
      ensures changed == old(changed) && credentials == old(credentials)
      ensures parallelInstallCount == old(parallelInstallCount)
      ensures hosts.items == hostsToInstall.items
      ensures var r := Filter(old(hostsToInstall.items), old(hostsReply), Inventory(inventory));
              if r.IndexError? then exit == Some(Crash(IndexErrorName))
              else hostsToInstall.items == r.remaining && hostsReply == r.reply &&
                   exit == (if !postinstall && r.remaining == [] then Some(Exit(false, Some(AlreadyExist), Hosts(r.reply)))
                            else None)
    {
      var cmHosts := BuildInventory(inventory);
      var reply, crashed := FilterKnown(hostsToInstall, cmHosts, hostsReply);
      hostsReply := reply;
      if crashed {
        return Some(Crash(IndexErrorName));
      }
      if !postinstall && |hostsToInstall.items| == 0 {
        return Some(Exit(false, Some(AlreadyExist), Hosts(hostsReply)));
      }
      return None;
    }

    /** do_install: `install` is how the remote command ended, `after`
        what `get_all_hosts` returns once it has. Every path ends the run;
        only a successful install goes on to filter the shared list again. */
    method DoInstall(install: InstallReply, after: seq<ApiHost>) returns (outcome: Outcome<Payload>, calls: seq<Call>)
      requires hostsToInstall == hosts
      modifies this, hostsToInstall
      ensures hosts == old(hosts) && hostsToInstall == old(hostsToInstall) && hosts.items == hostsToInstall.items
      ensures changed == old(changed) && credentials == old(credentials)
      ensures parallelInstallCount == old(parallelInstallCount)
      ensures !(install.Finished? && install.success) ==>
                hostsToInstall.items == old(hostsToInstall.items) && hostsReply == old(hostsReply)
      ensures var r := Filter(old(hostsToInstall.items), old(hostsReply), Inventory(after));
              install.Finished? && install.success && r.Filtered? ==>
                hostsToInstall.items == r.remaining && hostsReply == r.reply
      ensures calls == [HostInstall(old(hostsToInstall.items), old(parallelInstallCount), old(credentials))]
      ensures match install
              case Raised(_) => outcome == Crash(NameErrorName)
              case Finished(success, msg) =>
                if !success then outcome == Fail(false, msg)
                else
                  var r := Filter(old(hostsToInstall.items), old(hostsReply), Inventory(after));
                  outcome == if r.IndexError? then Crash(IndexErrorName) else Exit(true, Some(msg), Hosts(r.reply))
    {
      calls := [HostInstall(hostsToInstall.items, parallelInstallCount, credentials)];
      match install
      case Raised(_) =>
        outcome := Crash(NameErrorName);
      case Finished(success, msg) =>
        if !success {
          return Fail(false, msg), calls;
        }
        var exit := CleanHosts(true, after);
        if exit.Some? {
          return exit.value, calls;
        }
        outcome := Exit(true, Some(msg), Hosts(hostsReply));
    }
  }

  /** A whole run of main: `before` and `after` are the host inventory
      read by the first and the post-install clean_hosts. */
  function InstallHostsRun(p: Params, before: seq<ApiHost>, install: InstallReply, after: seq<ApiHost>): (r: Run<Payload>)
    ensures |r.calls| <= 1
    ensures ExclusiveViolation(p.credentials).Some? ==>
              r == Run(Fail(false, ExclusiveViolation(p.credentials).value), [])
    ensures r.outcome.Changed() ==> r.calls != [] && install.Finished? && install.success
    ensures r.calls != [] && install.Finished? && !install.success ==> r.outcome == Fail(false, install.resultMessage)
    ensures r.calls != [] && install.Finished? && install.success ==>
              r.outcome.Crash? || (r.outcome.Exit? && r.outcome.changed && r.outcome.message == Some(install.resultMessage))
  {
    match ExclusiveViolation(p.credentials)
    case Some(msg) => Run(Fail(false, msg), [])
    case None =>
      match Filter(p.hosts, map[], Inventory(before))
      case IndexError => Run(Crash(IndexErrorName), [])
      case Filtered(remaining, reply) =>
        if remaining == [] then Run(Exit(false, Some(AlreadyExist), Hosts(reply)), [])
        else
          var call := HostInstall(remaining, p.parallelInstallCount, p.credentials);
          match install
          case Raised(_) => Run(Crash(NameErrorName), [call])
          case Finished(success, msg) =>
            if !success then Run(Fail(false, msg), [call])
            else
              match Filter(remaining, reply, Inventory(after))
              case IndexError => Run(Crash(IndexErrorName), [call])
              case Filtered(_, reply') => Run(Exit(true, Some(msg), Hosts(reply')), [call])
  }

  /** main: the argument check, then clean_hosts and do_install on one
      cmInstall object; the final exit_json of main is never reached. */
  method Execute(p: Params, before: seq<ApiHost>, install: InstallReply, after: seq<ApiHost>) returns (r: Run<Payload>)
    ensures r == InstallHostsRun(p, before, install, after)
  {
    var violation := ExclusiveViolation(p.credentials);
    if violation.Some? {
      return Run(Fail(false, violation.value), []);
    }
    var installer := new CmInstall(p);
    var exit := installer.CleanHosts(false, before);
    if exit.Some? {
      return Run(exit.value, []);
    }
    var outcome, calls := installer.DoInstall(install, after);
    r := Run(outcome, calls);
  }

  /** The install command is issued at most once, for exactly the
      requested hosts that are not in the inventory, in their requested
      order, with the configured parallelism. */
  lemma InstallOnlyUnknown(p: Params, before: seq<ApiHost>, install: InstallReply, after: seq<ApiHost>)
    ensures var r := InstallHostsRun(p, before, install, after);
            r.calls != [] ==>
              r.calls == [HostInstall(Unknown(p.hosts, Inventory(before)), p.parallelInstallCount, p.credentials)] &&
              Unknown(p.hosts, Inventory(before)) != []
  {
    var first := Filter(p.hosts, map[], Inventory(before));
    if first.Filtered? {
      FilterIsPartition(p.hosts, map[], Inventory(before));
    }
  }

  /** Conversely, when the first filter finishes and some requested host is
      not registered, the install is issued, once, for exactly those hosts. */
  lemma InstallWhenPending(p: Params, before: seq<ApiHost>, install: InstallReply, after: seq<ApiHost>)
    requires ExclusiveViolation(p.credentials).None?
    requires Filter(p.hosts, map[], Inventory(before)).Filtered?
    requires Unknown(p.hosts, Inventory(before)) != []
    ensures InstallHostsRun(p, before, install, after).calls ==
              [HostInstall(Unknown(p.hosts, Inventory(before)), p.parallelInstallCount, p.credentials)]
  {
    FilterIsPartition(p.hosts, map[], Inventory(before));
  }

  /** When every requested host is already registered, no install is
      issued; the run reports "hosts already exist" for at most one host,
      and with two or more the filter loop raises IndexError first. */
  lemma AllKnown(p: Params, before: seq<ApiHost>, install: InstallReply, after: seq<ApiHost>)
    requires ExclusiveViolation(p.credentials).None?
    requires forall i :: 0 <= i < |p.hosts| ==> p.hosts[i] in Inventory(before)
    ensures var r := InstallHostsRun(p, before, install, after);
            if |p.hosts| <= 1 then r == Run(Exit(false, Some(AlreadyExist), Hosts(KnownReply(p.hosts, Inventory(before)))), [])
            else r == Run(Crash(IndexErrorName), [])
  {
    var known := Inventory(before);
    FilterClosedForm(p.hosts, map[], known);
    if |p.hosts| <= 1 {
      FilterIsPartition(p.hosts, map[], known);
      assert map[] + KnownReply(p.hosts, known) == KnownReply(p.hosts, known);
    } else {
      assert p.hosts[0] in known;
    }
  }

  /** After a successful install of two or more hosts that Cloudera
      Manager now lists, the post-install clean_hosts raises IndexError:
      the first of them is popped before the last index is read. */
  lemma PostInstallRaises(p: Params, before: seq<ApiHost>, msg: string, after: seq<ApiHost>)
    requires ExclusiveViolation(p.credentials).None?
    requires Filter(p.hosts, map[], Inventory(before)).Filtered?
    requires var remaining := Filter(p.hosts, map[], Inventory(before)).remaining;
             |remaining| >= 2 && remaining[0] in Inventory(after)
    ensures InstallHostsRun(p, before, Finished(true, msg), after).outcome == Crash(IndexErrorName)
    ensures |InstallHostsRun(p, before, Finished(true, msg), after).calls| == 1
  {
    var first := Filter(p.hosts, map[], Inventory(before));
    FilterClosedForm(first.remaining, first.reply, Inventory(after));
  }

  /** A successful run reports the records of the hosts that were already
      registered together with those of the newly installed hosts that the
      post-install inventory lists. */
  lemma InstalledReport(p: Params, before: seq<ApiHost>, msg: string, after: seq<ApiHost>)
    requires InstallHostsRun(p, before, Finished(true, msg), after).outcome.Exit?
    requires InstallHostsRun(p, before, Finished(true, msg), after).outcome.changed
    ensures var pending := Unknown(p.hosts, Inventory(before));
            InstallHostsRun(p, before, Finished(true, msg), after).outcome.payload ==
              Hosts(KnownReply(p.hosts, Inventory(before)) + KnownReply(pending, Inventory(after)))
  {
    var first := Filter(p.hosts, map[], Inventory(before));
    FilterIsPartition(p.hosts, map[], Inventory(before));
    assert map[] + KnownReply(p.hosts, Inventory(before)) == KnownReply(p.hosts, Inventory(before));
    FilterIsPartition(first.remaining, first.reply, Inventory(after));
  }
}
