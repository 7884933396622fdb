# Cloudera Manager Ansible modules, modelled in Dafny

The repository has four Ansible modules that administer a Cloudera Manager
(CM) server through the `cm_api` client:

- `cloudera_manager_config` lists the server settings, sets one (`present`),
  or resets one to its factory default (`absent`).
- `cloudera_manager_user` lists users, deletes one (`absent`), or creates one
  or brings its roles up to date (`present`).
- `cloudera_manager_install_hosts` and `cloudera_manager_install_host` install
  the CM agent on the requested hosts that CM does not know yet.

Each run reads a snapshot of the server's state and makes at most one
mutating call. It then ends in exactly one way: `fail_json`, `exit_json`, or
an uncaught Python exception. The model makes each module a function of its
options and of the snapshots it reads. That function returns a `Run`: the
`Outcome` (`Fail(changed, msg)`, `Exit(changed, message, payload)` or
`Crash(exception)`) and the log of mutating calls issued (`UpdateConfig`,
`DeleteUser`, `UpdateUser`, `CreateUser`, `HostInstall`). Remote replies
are inputs: the update reply, the lookup result, the install command's end
state, and the inventory before and after an install. A method named
`Execute` mirrors each module's `main` step by step and is proved equal to
that function.

Files:

- `ansible.dfy` (module `Ansible`): `Option`, `Outcome`, the SSH
  credential options, and AnsibleModule's mutually-exclusive check.
- `cm_api.dfy` (module `CmApi`): what the reads return, the call log, and
  `Run`.
- `host_filter.dfy` (module `HostFilter`): the inventory map both install
  modules build, the `basestring` attribute filter, a `PyList` class for a
  Python list object, and the loop that pops known hosts while it indexes
  over the list's original length. `PopFilter` is a step-by-step reference
  for that loop and `FilterKnown` runs it in place. The lemmas give its
  closed form and compare it with a clean partition (`Unknown`,
  `KnownReply`).
- `config.dfy`, `user.dfy`, `install_hosts.dfy`, `install_host.dfy`: one
  module per source file. `install_hosts.dfy` has the class `CmInstall`
  with the fields `clean_hosts` updates. `hosts_to_install` is the same
  `PyList` object as `hosts`.

## Quirks of the code as written

- `absent` on a user that does not exist issues no call, yet reports
  `changed=True` with "user is created", because main ends on that exit
  (`User.AbsentRerunReportsChange`).
- Roles are compared by list equality, so the same roles in another order
  trigger an update (`User.RoleOrderMatters`). `present` without `roles` on
  an existing user issues an update and reports a change on every run
  (`User.RolelessPresentAlwaysUpdates`).
- The host filter pops while it indexes over the list's original length.
  It raises `IndexError` whenever a registered host sits anywhere before
  the last position (`HostFilter.FilterClosedForm`). Requesting a, b, c
  with only b registered raises IndexError
  (`HostFilter.MiddleHostKnownRaises`). When the loop does finish, it has
  computed exactly the clean partition (`HostFilter.FilterIsPartition`).
- In the bulk installer, when two or more hosts are installed and the
  post-install inventory lists them, the post-install filter raises
  `IndexError` after the install succeeded
  (`InstallHosts.PostInstallRaises`).

## Model

| member | source | states |
|---|---|---|
| `Ansible.ExclusiveViolation` | library/cloudera_manager_install_hosts.py:217-220 | the run is refused exactly when `password` is given with `private_key` or with `passphrase`; the message names each violated pair |
| `Config.SettingsOf` | library/cloudera_manager_config.py:146-153 | one entry per remote key, with that key's name, default and value copied (None stays None) |
| `Config.BuildSettings` | library/cloudera_manager_config.py:146-153 | the key-by-key loop builds exactly that settings map |
| `Config.Decide` | library/cloudera_manager_config.py:155-178 | list mode exits unchanged with the settings map and no call, before any name check. A missing or unknown name fails with its message and no call; so does `present` without a value. `absent` targets None. An update `{name: target}` is issued exactly when the target differs from the current value; its reply gives `changed=True` or a failure with `changed=False`. Otherwise there is no call and the exit is unchanged. There is never more than one call |
| `Config.ConfigRun` | library/cloudera_manager_config.py:140-178 | a whole run: a failing configuration read fails with its error and no call; at most one call; a change is reported only after an update whose reply succeeded |
| `Config.Execute` | library/cloudera_manager_config.py:140-178 | main, with a failing configuration read ending in a failure and no call |
| `Config.RerunIsNoOp` | library/cloudera_manager_config.py:170-178 | idempotence: rerunning against the configuration a successful run left behind issues no update and reports no change |
| `User.UsersOf` | library/cloudera_manager_user.py:158-164 | one `{username, roles}` entry per remote user, in remote order |
| `User.UserRun` | library/cloudera_manager_user.py:157-165 | list mode exits unchanged with that list and issues no call |
| `User.Execute` | library/cloudera_manager_user.py:157-201 | main, with the list built by the index loop |
| `User.Decide` | library/cloudera_manager_user.py:166-201 | only the exact "does not exist (error 404)" text counts as a missing user; any other lookup error fails unchanged with no call. `absent` on an existing user deletes once ("user is deleted"); a failed delete crashes. `absent` on a missing user makes no call and reports "user is created" with `changed=True`. Equal roles: no call, unchanged, whatever `force_password_update` says. Different roles: one update that sends the password only when forced ("role updated", or failure unchanged). A missing user under `present` is created once ("user is created", or failure with `changed=True`). There is never more than one call |
| `User.PresentRerunIsNoOp` | library/cloudera_manager_user.py:184-201 | idempotence of `present`: after a successful create or role update, the same options issue no call and report no change |
| `User.AbsentRerunReportsChange` | library/cloudera_manager_user.py:176-201 | after a delete, rerunning `absent` issues no call yet reports a change |
| `User.RolelessPresentAlwaysUpdates` | library/cloudera_manager_user.py:184-191 | `present` without `roles` on an existing user always issues one update and, when it succeeds, reports "role updated" as a change |
| `User.RoleOrderMatters` | library/cloudera_manager_user.py:185 | the same roles in another order trigger an update |
| `HostFilter.StringFields` | library/cloudera_manager_install_hosts.py:161-163 | a host record holds exactly the string-valued attributes, with their values |
| `HostFilter.RecordOf` | library/cloudera_manager_install_hosts.py:160-163 | the attribute loop builds exactly that record |
| `HostFilter.Inventory` | library/cloudera_manager_install_hosts.py:157-164 | the map `cm_hosts`, defined by recursion over the listed hosts: every listed hostname is a key, and the last host listed holds its own record (see `InventoryKeys`, `InventoryRecord`) |
| `HostFilter.InventoryKeys` | library/cloudera_manager_install_hosts.py:157-164 | the inventory map is keyed exactly by the listed hostnames |
| `HostFilter.InventoryRecord` | library/cloudera_manager_install_hosts.py:159-164 | each hostname maps to the record of the last host listed under it |
| `HostFilter.BuildInventory` | library/cloudera_manager_install_host.py:179-186 | the index loop builds exactly the inventory map |
| `HostFilter.PopFilter` | library/cloudera_manager_install_hosts.py:166-169 | the loop as written from iteration k on, defined by recursion: a finished loop leaves a list no longer than the one it started with, keeps every reply entry, and adds only known hosts (see `FilterClosedForm`) |
| `HostFilter.Filter` | library/cloudera_manager_install_hosts.py:166-169 | the whole loop over `range(len(lst))`: a list of at most one host never raises; a finished loop shortens the list at most, keeps the reply entries and adds only known hosts |
| `HostFilter.PyList.Pop` | library/cloudera_manager_install_hosts.py:169 | removes the element at the index and shifts the later ones down |
| `HostFilter.FilterKnown` | library/cloudera_manager_install_hosts.py:166-169 | the in-place loop ends as the reference loop does (list, reply map, or IndexError), and never removes a requested host that is not in the inventory |
| `HostFilter.ShortListRaises` | library/cloudera_manager_install_hosts.py:166-169 | once a pop has made the list shorter than the fixed range, the loop ends in IndexError |
| `HostFilter.FilterClosedForm` | library/cloudera_manager_install_hosts.py:166-169 | the loop finishes without IndexError exactly when no host at positions 0..n-2 is known; it then pops only the last host, and only if that host is known |
| `HostFilter.UnknownMembers` | library/cloudera_manager_install_hosts.py:166-169 | reference partition `Unknown`: a host is kept exactly when it is requested and not known |
| `HostFilter.KnownReply` | library/cloudera_manager_install_hosts.py:166-168 | reference reply: exactly the requested known hosts, each mapped to its inventory record |
| `HostFilter.FilterIsPartition` | library/cloudera_manager_install_host.py:188-192 | a loop that finishes keeps exactly the unknown hosts in order, and adds every requested known host with its record to the reply |
| `HostFilter.SkipAfterPop` | library/cloudera_manager_install_hosts.py:166-169 | for the first pop, at position i: the hosts read so far are lst[0..i], and the next host read is the one at i+2, so the host that slides into slot i is never read |
| `HostFilter.SkipAtAnyPop` | library/cloudera_manager_install_hosts.py:166-169 | at any iteration k, on the list as it then is: after a pop at slot k the next host read is the one that was at k+2, so every pop skips the host that slides down |
| `HostFilter.EveryPopSkips` | library/cloudera_manager_install_hosts.py:166-169 | requesting a, b, c, d, e with a and c registered reads exactly a, c, e: both b and d are skipped |
| `HostFilter.MiddleHostKnownRaises` | library/cloudera_manager_install_hosts.py:166-169 | requesting a, b, c with only b known reads a and b, skips c, and raises IndexError |
| `InstallHosts.CmInstall.constructor` | library/cloudera_manager_install_hosts.py:125-146 | `hosts_to_install` is the very list object `hosts`; the reply map starts empty and `changed` false |
| `InstallHosts.CmInstall.CleanHosts` | library/cloudera_manager_install_hosts.py:156-172 | runs the filter on the shared list (so `hosts` shrinks too). An IndexError crashes. Before install only, an empty remainder exits unchanged with "hosts already exist" and the reply map |
| `InstallHosts.CmInstall.DoInstall` | library/cloudera_manager_install_hosts.py:176-192 | one install of the remaining hosts with the configured parallelism. Failure exits unchanged with the result message. Only a successful install changes the list and reply map, to what the post-install filter leaves. After success the post-install filter never exits early: the run crashes or exits changed with the message and reply map. A raised ApiException ends in NameError |
| `InstallHosts.InstallHostsRun` | library/cloudera_manager_install_hosts.py:195-229 | credential conflicts fail before anything else; at most one call; a change is reported only after a successful install |
| `InstallHosts.Execute` | library/cloudera_manager_install_hosts.py:223-229 | main's call order on one `cmInstall` object gives exactly that run |
| `InstallHosts.InstallOnlyUnknown` | library/cloudera_manager_install_hosts.py:178-184 | an install, if issued, is for exactly the requested unknown hosts, in order, with `parallel_install_count` |
| `InstallHosts.InstallWhenPending` | library/cloudera_manager_install_hosts.py:170-184 | conversely, when the first filter finishes with a requested host that is not registered, exactly one install is issued, for exactly the unregistered hosts |
| `InstallHosts.AllKnown` | library/cloudera_manager_install_hosts.py:166-172 | with every requested host known, there is no install; one host gives "hosts already exist" with its record, two or more give IndexError |
| `InstallHosts.PostInstallRaises` | library/cloudera_manager_install_hosts.py:166-189 | after a successful install of two or more hosts that CM now lists, the run crashes with IndexError |
| `InstallHosts.InstalledReport` | library/cloudera_manager_install_hosts.py:189-190 | a changed exit reports the records of the hosts already known plus those of the installed hosts CM now lists |
| `InstallHost.InstallHostRun` | library/cloudera_manager_install_host.py:179-213 | credential conflicts fail first; at most one install, always with parallelism 1. A raised error or a failed result fails unchanged with its message. Success exits changed with the result message and no hosts payload |
| `InstallHost.Execute` | library/cloudera_manager_install_host.py:140-213 | main, run on the `host` list object in place, gives exactly that run |
| `InstallHost.InstallOnlyUnknown` | library/cloudera_manager_install_host.py:188-204 | an install, if issued, is for exactly the requested unknown hosts, in order |
| `InstallHost.InstallWhenPending` | library/cloudera_manager_install_host.py:188-204 | conversely, when the filter finishes with a requested host that is not registered, exactly one install is issued, for exactly the unregistered hosts |
| `InstallHost.NothingToInstall` | library/cloudera_manager_install_host.py:194-195 | a run that ends without a call, crash or credential failure means every requested host is known; it exits unchanged with "host already exist" and each host's record |

## Left out

- Connecting to CM (`ApiResource`, `ClouderaManager`, "Can't connect to API") and the `HAS_CM_API` import check: network setup and the Python environment.
- `cm_api` itself: reads are snapshots given to the model. The install command after `wait()` and `fetch()` is its end state (`success`, `resultMessage`) or a raised ApiException.
- The second, identical `get_config('full')` read of the config module: one read is modelled. A failure of the first read is modelled.
- A failure of `get_all_hosts`, `get_all_users`, or the config module's final `get_config('summary')` read (outside any `try`, so an ApiException there would crash the run): these reads always succeed in the model.
- Python's `__dict__`: a host object's attribute dictionary is given as a map whose values are strings or "something else".
- A missing `name` for the user module outside list mode: `get_user(None)` is a remote call whose reply and error text are cm_api's, so `name` is a string in the model.
- The bare `except` around the user delete also catches the SystemExit that `exit_json` raises. The model takes `exit_json` as ending the run, as it does for Ansible's output. A delete that raises is modelled as the UnboundLocalError of formatting `e`.
- Ansible argument parsing beyond the `state` choices and the mutually-exclusive rules. The refusal text is Ansible's own and varies between Ansible versions; the model uses the `password|private_key` form.
- The other `host_install` arguments (user name, SSH port, repository and GPG key URLs, Java strategy, JCE flag) are passed through unchanged and not modelled.
- User.PresentRerunIsNoOp: requires `roles` to be given. Without `roles`, `present` on an existing user updates on every run (`User.RolelessPresentAlwaysUpdates`), so there is no idempotence to state. The model's user table leaves a user as it was after a call without roles; what the server stores then is not modelled.
- The remote install's own concurrency and per-host results: CM reports one success flag for the whole batch.
- `HostFilter.PyList.Pop`: requires an index inside the list. Python would raise IndexError otherwise, but the loop only pops an index it has just read.
- `DOCUMENTATION`/`EXAMPLES` strings and the unused `os`/`time`/`syslog` imports.
