/** What the two host-install modules share: the inventory map built from
    `get_all_hosts`, and the loop that drops already-registered hosts from
    the requested list by popping while indexing over the list's original
    length (library/cloudera_manager_install_hosts.py, clean_hosts, and
    library/cloudera_manager_install_host.py, main). */
module HostFilter {
  import opened Ansible
  import opened CmApi

  /** A host record: the string-valued attributes of a host object. */
  type HostRecord = map<string, string>

  /** The `basestring` filter over a host's attribute dictionary. */
  function StringFields(attributes: map<string, AttrValue>): (h: HostRecord)
    ensures forall key :: key in h <==> key in attributes && attributes[key].Str?
    ensures forall key :: key in h ==> h[key] == attributes[key].s
  {
    map key | key in attributes && attributes[key].Str? :: attributes[key].s
  }

  /** The inner loop over `__dict__.items()`. */
  method RecordOf(host: ApiHost) returns (record: HostRecord)
    ensures record == StringFields(host.attributes)
  {
    record := map[];
    var todo := host.attributes.Keys;
    while todo != {}
      invariant todo <= host.attributes.Keys
      invariant forall key :: key in record <==> key in host.attributes && key !in todo && host.attributes[key].Str?
      invariant forall key :: key in record ==> record[key] == host.attributes[key].s
      decreases todo
    {
      var key :| key in todo;
      if host.attributes[key].Str? {
        record := record[key := host.attributes[key].s];
      }
      todo := todo - {key};
    }
  }

  /** The inventory map `cm_hosts`: each listed host's record under its
      hostname, a later host overwriting an earlier one of the same name. */
  function Inventory(hosts: seq<ApiHost>): (m: map<string, HostRecord>)
    ensures forall i :: 0 <= i < |hosts| ==> hosts[i].hostname in m
    ensures |hosts| > 0 ==> m[hosts[|hosts| - 1].hostname] == StringFields(hosts[|hosts| - 1].attributes)
    decreases |hosts|
  {
    if hosts == [] then map[]
    else
      var last := hosts[|hosts| - 1];
      Inventory(hosts[..|hosts| - 1])[last.hostname := StringFields(last.attributes)]
  }

  /** The inventory is keyed exactly by the listed hostnames. */
  lemma {:induction false} InventoryKeys(hosts: seq<ApiHost>, name: string)
    ensures name in Inventory(hosts) <==> exists i :: 0 <= i < |hosts| && hosts[i].hostname == name
    decreases |hosts|
  {
    if hosts != [] {
      var prefix := hosts[..|hosts| - 1];
      InventoryKeys(prefix, name);
      if name in Inventory(prefix) {
        var i :| 0 <= i < |prefix| && prefix[i].hostname == name;
        assert hosts[i] == prefix[i];
      }
      if exists i :: 0 <= i < |hosts| && hosts[i].hostname == name {
        var i :| 0 <= i < |hosts| && hosts[i].hostname == name;
        if i < |prefix| {
          assert prefix[i] == hosts[i];
        }
      }
    }
  }

  /** Each hostname maps to the record of the last host listed under it. */
  lemma {:induction false} InventoryRecord(hosts: seq<ApiHost>, i: nat)
    requires i < |hosts|
    requires forall j :: i < j < |hosts| ==> hosts[j].hostname != hosts[i].hostname
    ensures hosts[i].hostname in Inventory(hosts)
    ensures Inventory(hosts)[hosts[i].hostname] == StringFields(hosts[i].attributes)
    decreases |hosts|
  {
    var n := |hosts|;
    if i < n - 1 {
      var prefix := hosts[..n - 1];
      assert prefix[i] == hosts[i];
      assert hosts[n - 1].hostname != hosts[i].hostname;
      InventoryRecord(prefix, i);
    }
  }

  /** The outer loop `for k in range(len(_hosts))`. */
  method BuildInventory(hosts: seq<ApiHost>) returns (cmHosts: map<string, HostRecord>)
    ensures cmHosts == Inventory(hosts)
  {
    cmHosts := map[];
    for k := 0 to |hosts|
      invariant cmHosts == Inventory(hosts[..k])
    {
      var record := RecordOf(hosts[k]);
      assert hosts[..k + 1][..k] == hosts[..k];
      cmHosts := cmHosts[hosts[k].hostname := record];
    }
    assert hosts[..|hosts|] == hosts;
  }

  /** A Python list object of host names. Several names may refer to the
      same object, and popping through one of them changes what all of
      them see. */
  class PyList {
    var items: seq<string>

    constructor (items: seq<string>)
      ensures this.items == items
    {
      this.items := items;
    }

    /** `list.pop(k)`; the loop below only pops an index it has just read. */
    method Pop(k: nat) returns (x: string)
      requires k < |items|
      modifies this
      ensures x == old(items)[k]
      ensures items == old(items)[..k] + old(items)[k + 1..]
    {
      x := items[k];
      items := items[..k] + items[k + 1..];
    }
  }

  /** The exception that ends a run whose filter loop reads past the list. */
  const IndexErrorName := "IndexError"

  /** How the filter loop ends: normally, with the list and reply map it
      leaves behind, or by the IndexError of reading past the list's end. */
  datatype FilterResult = Filtered(remaining: seq<string>, reply: map<string, HostRecord>) | IndexError

  /** The loop, from iteration `k` of `range(n)` on, over the current list
      `lst`: a known host is copied to the reply map and popped, and the
      index moves on in either case. */
  function PopFilter(lst: seq<string>, k: nat, n: nat, reply: map<string, HostRecord>,
                     known: map<string, HostRecord>): (r: FilterResult)
    ensures r.Filtered? ==> |r.remaining| <= |lst|
    ensures r.Filtered? ==> forall h :: h in reply ==> h in r.reply
    ensures r.Filtered? ==> forall h :: h in r.reply ==> h in reply || h in known
    decreases n - k
  {
    if k >= n then Filtered(lst, reply)
    else if k >= |lst| then IndexError
    else if lst[k] in known then PopFilter(lst[..k] + lst[k + 1..], k + 1, n, reply[lst[k] := known[lst[k]]], known)
    else PopFilter(lst, k + 1, n, reply, known)
  }

  /** The whole loop over `range(len(lst))`. */
  function Filter(lst: seq<string>, reply: map<string, HostRecord>, known: map<string, HostRecord>): (r: FilterResult)
    ensures |lst| <= 1 ==> r.Filtered?
    ensures r.Filtered? ==> |r.remaining| <= |lst|
    ensures r.Filtered? ==> forall h :: h in reply ==> h in r.reply
    ensures r.Filtered? ==> forall h :: h in r.reply ==> h in reply || h in known
  {
    PopFilter(lst, 0, |lst|, reply, known)
  }

  /** The loop run in place on a list object; `reply'` is the reply dict
      after the loop. */
  method FilterKnown(list: PyList, known: map<string, HostRecord>, reply: map<string, HostRecord>)
    returns (reply': map<string, HostRecord>, crashed: bool)
    modifies list
    ensures var r := Filter(old(list.items), reply, known);
            crashed == r.IndexError? && (!crashed ==> list.items == r.remaining && reply' == r.reply)
    ensures forall h :: h in old(list.items) && h !in known ==> h in list.items
  {
    var n := |list.items|;
    reply', crashed := reply, false;
    var k := 0;
    while k < n
      invariant 0 <= k <= n
      invariant PopFilter(list.items, k, n, reply', known) == Filter(old(list.items), reply, known)
      invariant forall h :: h in old(list.items) && h !in known ==> h in list.items
    {
      if k >= |list.items| {
        crashed := true;
        return;
      }
      var h := list.items[k];
      if h in known {
        reply' := reply'[h := known[h]];
        ghost var before := list.items;
        var _ := list.Pop(k);
        forall g | g in before && g !in known ensures g in list.items {
          var j :| 0 <= j < |before| && before[j] == g;
          assert j != k;
          if j < k { assert list.items[j] == g; } else { assert list.items[j - 1] == g; }
        }
      }
      k := k + 1;
    }
  }

  /** Once the list is shorter than the fixed range, the loop cannot end
      normally: the index reaches the end of the list before the range ends. */
  lemma {:induction false} ShortListRaises(lst: seq<string>, k: nat, n: nat, reply: map<string, HostRecord>,
                                           known: map<string, HostRecord>)
    requires |lst| < n && k < n
    ensures PopFilter(lst, k, n, reply, known).IndexError?
    decreases n - k
  {
    if k < |lst| {
      if lst[k] in known {
        ShortListRaises(lst[..k] + lst[k + 1..], k + 1, n, reply[lst[k] := known[lst[k]]], known);
      } else {
        ShortListRaises(lst, k + 1, n, reply, known);
      }
    }
  }

  lemma {:induction false} FilterFrom(lst: seq<string>, k: nat, reply: map<string, HostRecord>,
                                      known: map<string, HostRecord>)
    requires k <= |lst|
    ensures var r := PopFilter(lst, k, |lst|, reply, known);
            var n := |lst|;
            (r.Filtered? <==> forall i :: k <= i < n - 1 ==> lst[i] !in known) &&
            (r.Filtered? && k < n && lst[n - 1] in known ==>
               r.remaining == lst[..n - 1] && r.reply == reply[lst[n - 1] := known[lst[n - 1]]]) &&
            (r.Filtered? && !(k < n && lst[n - 1] in known) ==> r.remaining == lst && r.reply == reply)
    decreases |lst| - k
  {
    var n := |lst|;
    if k < n {
      if lst[k] in known {
        var popped := lst[..k] + lst[k + 1..];
        if k == n - 1 {
          assert popped == lst[..n - 1];
        } else {
          ShortListRaises(popped, k + 1, n, reply[lst[k] := known[lst[k]]], known);
        }
      } else {
        FilterFrom(lst, k + 1, reply, known);
      }
    }
  }

  /** The loop ends without an IndexError exactly when no requested host at
      positions 0..n-2 is known; it then pops the last host if that one is
      known, and nothing else. */
  lemma FilterClosedForm(lst: seq<string>, reply: map<string, HostRecord>, known: map<string, HostRecord>)
    ensures var r := Filter(lst, reply, known);
            var n := |lst|;
            (r.Filtered? <==> forall i :: 0 <= i < n - 1 ==> lst[i] !in known) &&
            (r.Filtered? ==>
               if n > 0 && lst[n - 1] in known
               then r.remaining == lst[..n - 1] && r.reply == reply[lst[n - 1] := known[lst[n - 1]]]
               else r.remaining == lst && r.reply == reply)
  {
    FilterFrom(lst, 0, reply, known);
  }

  /** The clean partition the loop is meant to compute: the requested hosts
      that are not known, in order. */
  function Unknown(hosts: seq<string>, known: map<string, HostRecord>): seq<string>
    decreases |hosts|
  {
    if hosts == [] then []
    else
      var last := hosts[|hosts| - 1];
      Unknown(hosts[..|hosts| - 1], known) + (if last in known then [] else [last])
  }

  /** A host is in that partition exactly when it is requested and not known. */
  lemma {:induction false} UnknownMembers(hosts: seq<string>, known: map<string, HostRecord>, h: string)
    ensures h in Unknown(hosts, known) <==> h in hosts && h !in known
    decreases |hosts|
  {
    if hosts != [] {
      var prefix := hosts[..|hosts| - 1];
      UnknownMembers(prefix, known, h);
      assert hosts == prefix + [hosts[|hosts| - 1]];
    }
  }

  /** The other half of that partition: each requested host that is known,
      mapped to its record. */
  function KnownReply(hosts: seq<string>, known: map<string, HostRecord>): (m: map<string, HostRecord>)
    ensures forall h :: h in m <==> h in hosts && h in known
    ensures forall h :: h in m ==> m[h] == known[h]
  {
    map h | h in hosts && h in known :: known[h]
  }

  lemma {:induction false} UnknownOfUnknown(hosts: seq<string>, known: map<string, HostRecord>)
    requires forall i :: 0 <= i < |hosts| ==> hosts[i] !in known
    ensures Unknown(hosts, known) == hosts
    decreases |hosts|
  {
    if hosts != [] {
      var prefix := hosts[..|hosts| - 1];
      var last := hosts[|hosts| - 1];
      assert forall i :: 0 <= i < |prefix| ==> prefix[i] == hosts[i];
      UnknownOfUnknown(prefix, known);
      assert last !in known;
      assert Unknown(hosts, known) == Unknown(prefix, known) + [last];
      assert prefix + [last] == hosts;
    }
  }

  /** The clean partition of a list in which at most the last host is known. */
  lemma PartitionOfLastKnown(lst: seq<string>, known: map<string, HostRecord>)
    requires |lst| > 0
    requires forall i :: 0 <= i < |lst| - 1 ==> lst[i] !in known
    ensures lst[|lst| - 1] in known ==>
              Unknown(lst, known) == lst[..|lst| - 1] &&
              KnownReply(lst, known) == map[lst[|lst| - 1] := known[lst[|lst| - 1]]]
    ensures lst[|lst| - 1] !in known ==> Unknown(lst, known) == lst && KnownReply(lst, known) == map[]
  {
    var last := lst[|lst| - 1];
    forall h | h in lst && h in known ensures h == last {
      var j :| 0 <= j < |lst| && lst[j] == h;
    }
    if last in known {
      UnknownOfUnknown(lst[..|lst| - 1], known);
    } else {
      UnknownOfUnknown(lst, known);
    }
  }

  lemma MapAddOne<K, V>(m: map<K, V>, k: K, v: V)
    ensures m + map[k := v] == m[k := v]
  {
  }

  /** Whenever the loop ends normally it has computed exactly the clean
      partition: the unknown hosts stay in the list, in order, and every
      known requested host is added to the reply map with its record. */
  lemma FilterIsPartition(lst: seq<string>, reply: map<string, HostRecord>, known: map<string, HostRecord>)
    requires Filter(lst, reply, known).Filtered?
    ensures Filter(lst, reply, known).remaining == Unknown(lst, known)
    ensures Filter(lst, reply, known).reply == reply + KnownReply(lst, known)
  {
    FilterClosedForm(lst, reply, known);
    var n := |lst|;
    if n == 0 {
      assert KnownReply(lst, known) == map[];
      assert reply + map[] == reply;
    } else {
      PartitionOfLastKnown(lst, known);
      if lst[n - 1] in known {
        MapAddOne(reply, lst[n - 1], known[lst[n - 1]]);
      } else {
        assert reply + map[] == reply;
      }
    }
  }

  /** The hosts the loop reads, in order, from iteration `k` on. */
  ghost function Examined(lst: seq<string>, k: nat, n: nat, known: map<string, HostRecord>): seq<string>
    decreases n - k
  {
    if k >= n || k >= |lst| then []
    else if lst[k] in known then [lst[k]] + Examined(lst[..k] + lst[k + 1..], k + 1, n, known)
    else [lst[k]] + Examined(lst, k + 1, n, known)
  }

  lemma {:induction false} SkipFrom(lst: seq<string>, k: nat, i: nat, known: map<string, HostRecord>)
    requires k <= i && i + 2 < |lst|
    requires forall j :: k <= j < i ==> lst[j] !in known
    requires lst[i] in known
    ensures var e := Examined(lst, k, |lst|, known);
            |e| >= i + 2 - k && e[..i + 1 - k] == lst[k..i + 1] && e[i + 1 - k] == lst[i + 2]
    decreases i - k
  {
    var n := |lst|;
    if k == i {
      var popped := lst[..i] + lst[i + 1..];
      assert popped[i + 1] == lst[i + 2];
      assert Examined(popped, i + 1, n, known) == [lst[i + 2]] + Examined(
        if popped[i + 1] in known then popped[..i + 1] + popped[i + 2..] else popped, i + 2, n, known);
    } else {
      SkipFrom(lst, k + 1, i, known);
      var rest := Examined(lst, k + 1, n, known);
      assert Examined(lst, k, n, known) == [lst[k]] + rest;
      assert lst[k..i + 1] == [lst[k]] + lst[k + 1..i + 1];
    }
  }

  /** After a pop at position i the next host slides into slot i, and the
      loop, having moved on to i+1, never reads it: the host read after
      lst[i] is lst[i+2]. */
  lemma SkipAfterPop(lst: seq<string>, i: nat, known: map<string, HostRecord>)
    requires i + 2 < |lst|
    requires forall j :: 0 <= j < i ==> lst[j] !in known
    requires lst[i] in known
    ensures var e := Examined(lst, 0, |lst|, known);
            |e| >= i + 2 && e[..i + 1] == lst[..i + 1] && e[i + 1] == lst[i + 2]
  {
    SkipFrom(lst, 0, i, known);
  }

  /** The same at any iteration, on the list as it then is: when the host
      read at slot k is known and popped, the next host read is the one
      that was at k+2, so the one that slides into slot k is skipped. */
  lemma SkipAtAnyPop(lst: seq<string>, k: nat, n: nat, known: map<string, HostRecord>)
    requires k + 1 < n && k + 2 < |lst| && lst[k] in known
    ensures var e := Examined(lst, k, n, known);
            |e| >= 2 && e[0] == lst[k] && e[1] == lst[k + 2]
  {
  }

  /** Requested hosts a, b, c, d, e with a and c registered: the loop reads
      a, pops it, skips b, reads c, pops it, skips d, and reads e. */
  lemma EveryPopSkips(known: map<string, HostRecord>)
    requires "a" in known && "c" in known && "b" !in known && "d" !in known && "e" !in known
    ensures Examined(["a", "b", "c", "d", "e"], 0, 5, known) == ["a", "c", "e"]
  {
  }

  /** Requested hosts a, b, c with only b registered: the loop reads a,
      then b, pops b, never reads c (now in slot 1), and raises IndexError
      reading slot 2 of a two-element list. */
  lemma MiddleHostKnownRaises(known: map<string, HostRecord>)
    requires "b" in known && "a" !in known && "c" !in known
    ensures Filter(["a", "b", "c"], map[], known).IndexError?
    ensures Examined(["a", "b", "c"], 0, 3, known) == ["a", "b"]
  {
    var lst := ["a", "b", "c"];
    FilterClosedForm(lst, map[], known);
    assert lst[1] in known;
    assert lst[..1] + lst[2..] == ["a", "c"];
  }
}
