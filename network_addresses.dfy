/**
 The IPv4 address list the cluster sample application shows on its main page.

 The operating system's interface table is a map from interface name to the
 list of address entries of that interface. The application walks the names in
 key order and, within each interface, its entries in order, and keeps each
 entry whose family is the string "IPv4" and that is not internal (loopback),
 paired with the name of the interface it came from.

 The interface table is an input here: a sequence of (name, entries) pairs in
 key order.
 */
module NetworkAddresses {

  datatype Option<T> = None | Some(value: T)

  /** One address entry of a network interface, as the operating system reports it. */
  datatype IfaceEntry = IfaceEntry(
    address: string,
    netmask: string,
    family: string,
    mac: string,
    internal: bool,
    cidr: Option<string>)

  /** One element of the result: the interface name and the entry it holds. */
  datatype IpAddr = IpAddr(interfaceName: string, infos: IfaceEntry)

  /** The interface table, names in key order. */
  type Interfaces = seq<(string, seq<IfaceEntry>)>

  /** The filter: an IPv4 entry that is not internal. */
  predicate IsReported(e: IfaceEntry)
  {
    e.family == "IPv4" && !e.internal
  }

  /** The reported addresses of one interface named `name`, in entry order. */
  function InterfaceAddrs(name: string, entries: seq<IfaceEntry>): seq<IpAddr>
  {
    if entries == [] then []
    else
      var e := entries[|entries| - 1];
      InterfaceAddrs(name, entries[..|entries| - 1]) + (if IsReported(e) then [IpAddr(name, e)] else [])
  }

  /** The reported addresses of all interfaces: interface after interface, in key order. */
  function AllIpAddrs(ifaces: Interfaces): seq<IpAddr>
  {
    if ifaces == [] then []
    else
      var last := ifaces[|ifaces| - 1];
      AllIpAddrs(ifaces[..|ifaces| - 1]) + InterfaceAddrs(last.0, last.1)
  }

  /**
   Reads the interface table as the loops of the source do and pushes every
   reported entry, with its interface name, onto the result.
   */
  method GetAllIpAddrs(ifaces: Interfaces) returns (addrs: seq<IpAddr>)
    ensures addrs == AllIpAddrs(ifaces)
    ensures forall a :: a in addrs ==> IsReported(a.infos)
    ensures |addrs| <= TotalEntries(ifaces)
  {
    addrs := [];
    for i := 0 to |ifaces|
      invariant addrs == AllIpAddrs(ifaces[..i])
    {
      var name := ifaces[i].0;
      var entries := ifaces[i].1;
      for j := 0 to |entries|
        invariant addrs == AllIpAddrs(ifaces[..i]) + InterfaceAddrs(name, entries[..j])
      {
        var e := entries[j];
        if e.family == "IPv4" && !e.internal {
          addrs := addrs + [IpAddr(name, e)];
        }
        assert entries[..j + 1][..j] == entries[..j];
      }
      assert entries[..|entries|] == entries;
      assert ifaces[..i + 1][..i] == ifaces[..i];
    }
    assert ifaces[..|ifaces|] == ifaces;
    AllIpAddrsSound(ifaces);
    AllIpAddrsBounded(ifaces);
  }

  // ---------------------------------------------------------------------------
  // An independent reference: every entry of every interface in enumeration
  // order, then the filter applied to that one flat sequence.

  /** Every entry of one interface paired with its name, in entry order. */
  function Tagged(name: string, entries: seq<IfaceEntry>): seq<IpAddr>
  {
    seq(|entries|, k requires 0 <= k < |entries| => IpAddr(name, entries[k]))
  }

  /** Every entry of every interface, interfaces in key order, entries in order. */
  function Flatten(ifaces: Interfaces): seq<IpAddr>
  {
    if ifaces == [] then []
    else
      var last := ifaces[|ifaces| - 1];
      Flatten(ifaces[..|ifaces| - 1]) + Tagged(last.0, last.1)
  }

  /** The number of entries in the whole interface table. */
  function TotalEntries(ifaces: Interfaces): nat
  {
    |Flatten(ifaces)|
  }

  /** The elements of `s` whose entry passes the filter, in order. */
  function Keep(s: seq<IpAddr>): seq<IpAddr>
  {
    if s == [] then []
    else Keep(s[..|s| - 1]) + (if IsReported(s[|s| - 1].infos) then [s[|s| - 1]] else [])
  }

  /** The indices in `s` of the elements that pass the filter, in increasing order. */
  function KeptIndices(s: seq<IpAddr>): seq<nat>
  {
    if s == [] then []
    else KeptIndices(s[..|s| - 1]) + (if IsReported(s[|s| - 1].infos) then [|s| - 1] else [])
  }

  lemma {:induction false} KeepAppend(s: seq<IpAddr>, t: seq<IpAddr>)
    ensures Keep(s + t) == Keep(s) + Keep(t)
    decreases |t|
  {
    if t == [] {
      assert s + t == s;
    } else {
      var t' := t[..|t| - 1];
      assert (s + t)[..|s + t| - 1] == s + t';
      KeepAppend(s, t');
    }
  }

  /**
   `Keep` is a subsequence of its input: element k of the result is element
   KeptIndices(s)[k] of the input, those indices strictly increase, and every
   element that passes the filter is among them.
   */
  lemma {:induction false} KeepIsOrderedSubsequence(s: seq<IpAddr>)
    ensures |KeptIndices(s)| == |Keep(s)|
    ensures forall k :: 0 <= k < |Keep(s)| ==> KeptIndices(s)[k] < |s| && Keep(s)[k] == s[KeptIndices(s)[k]]
    ensures forall k, l :: 0 <= k < l < |KeptIndices(s)| ==> KeptIndices(s)[k] < KeptIndices(s)[l]
    ensures forall i :: 0 <= i < |s| && IsReported(s[i].infos) ==> i in KeptIndices(s)
  {
    if s != [] {
      var s' := s[..|s| - 1];
      KeepIsOrderedSubsequence(s');
      assert forall i :: 0 <= i < |s'| ==> s'[i] == s[i];
    }
  }

  /** The reported addresses of one interface are the filter applied to its entries, each tagged with the interface name. */
  lemma {:induction false} InterfaceAddrsIsKeep(name: string, entries: seq<IfaceEntry>)
    ensures InterfaceAddrs(name, entries) == Keep(Tagged(name, entries))
  {
    if entries != [] {
      var e := entries[|entries| - 1];
      var before := entries[..|entries| - 1];
      InterfaceAddrsIsKeep(name, before);
      assert Tagged(name, entries) == Tagged(name, before) + [IpAddr(name, e)];
      KeepAppend(Tagged(name, before), [IpAddr(name, e)]);
      assert Keep([IpAddr(name, e)]) == (if IsReported(e) then [IpAddr(name, e)] else []) by {
        assert [IpAddr(name, e)][..0] == [];
      }
    }
  }

  /**
   The result is exactly the filter applied to the whole table in enumeration
   order: interfaces in key order, entries within each interface in order.
   */
  lemma {:induction false} AllIpAddrsIsKeepOfFlatten(ifaces: Interfaces)
    ensures AllIpAddrs(ifaces) == Keep(Flatten(ifaces))
  {
    if ifaces != [] {
      var last := ifaces[|ifaces| - 1];
      var before := ifaces[..|ifaces| - 1];
      AllIpAddrsIsKeepOfFlatten(before);
      InterfaceAddrsIsKeep(last.0, last.1);
      KeepAppend(Flatten(before), Tagged(last.0, last.1));
    }
  }

  /**
   Order preservation: the result is an ordered subsequence of the enumeration
   of all entries, and it misses none of the entries that pass the filter.
   */
  lemma AllIpAddrsPreservesOrder(ifaces: Interfaces)
    ensures |KeptIndices(Flatten(ifaces))| == |AllIpAddrs(ifaces)|
    ensures forall k :: 0 <= k < |AllIpAddrs(ifaces)| ==>
              KeptIndices(Flatten(ifaces))[k] < |Flatten(ifaces)| &&
              AllIpAddrs(ifaces)[k] == Flatten(ifaces)[KeptIndices(Flatten(ifaces))[k]]
    ensures forall k, l :: 0 <= k < l < |AllIpAddrs(ifaces)| ==>
              KeptIndices(Flatten(ifaces))[k] < KeptIndices(Flatten(ifaces))[l]
    ensures forall i :: 0 <= i < |Flatten(ifaces)| && IsReported(Flatten(ifaces)[i].infos) ==>
              i in KeptIndices(Flatten(ifaces))
  {
    AllIpAddrsIsKeepOfFlatten(ifaces);
    KeepIsOrderedSubsequence(Flatten(ifaces));
  }

  /** The addresses of earlier interfaces come first: the result for a prefix of the table is a prefix of the result. */
  lemma {:induction false} AllIpAddrsPrefix(ifaces: Interfaces, n: nat)
    requires n <= |ifaces|
    ensures AllIpAddrs(ifaces[..n]) <= AllIpAddrs(ifaces)
    decreases |ifaces| - n
  {
    if n < |ifaces| {
      AllIpAddrsPrefix(ifaces, n + 1);
      assert ifaces[..n + 1][..n] == ifaces[..n];
    } else {
      assert ifaces[..n] == ifaces;
    }
  }

  /** The result is no longer than the number of entries in the table. */
  lemma AllIpAddrsBounded(ifaces: Interfaces)
    ensures |AllIpAddrs(ifaces)| <= TotalEntries(ifaces)
  {
    AllIpAddrsIsKeepOfFlatten(ifaces);
    KeepIsOrderedSubsequence(Flatten(ifaces));
    KeepBounded(Flatten(ifaces));
  }

  lemma {:induction false} KeepBounded(s: seq<IpAddr>)
    ensures |Keep(s)| <= |s|
  {
    if s != [] {
      KeepBounded(s[..|s| - 1]);
    }
  }

  /** An element of the flattened table comes from some entry of some interface, and every entry is there. */
  lemma {:induction false} FlattenMembers(ifaces: Interfaces, a: IpAddr)
    ensures a in Flatten(ifaces) <==>
      exists i, j :: 0 <= i < |ifaces| && 0 <= j < |ifaces[i].1| && a == IpAddr(ifaces[i].0, ifaces[i].1[j])
  {
    if ifaces != [] {
      var n := |ifaces| - 1;
      var before := ifaces[..n];
      FlattenMembers(before, a);
      if a in Flatten(ifaces) {
        if a in Flatten(before) {
          var i, j :| 0 <= i < |before| && 0 <= j < |before[i].1| && a == IpAddr(before[i].0, before[i].1[j]);
          assert ifaces[i] == before[i];
        } else {
          var j :| 0 <= j < |ifaces[n].1| && Tagged(ifaces[n].0, ifaces[n].1)[j] == a;
          assert a == IpAddr(ifaces[n].0, ifaces[n].1[j]);
        }
      }
      if exists i, j :: 0 <= i < |ifaces| && 0 <= j < |ifaces[i].1| && a == IpAddr(ifaces[i].0, ifaces[i].1[j]) {
        var i, j :| 0 <= i < |ifaces| && 0 <= j < |ifaces[i].1| && a == IpAddr(ifaces[i].0, ifaces[i].1[j]);
        if i < n {
          assert before[i] == ifaces[i];
        } else {
          assert Tagged(ifaces[n].0, ifaces[n].1)[j] == a;
        }
      }
    }
  }

  lemma {:induction false} KeepMembers(s: seq<IpAddr>, a: IpAddr)
    ensures a in Keep(s) <==> a in s && IsReported(a.infos)
  {
    if s != [] {
      var s' := s[..|s| - 1];
      KeepMembers(s', a);
      assert s == s' + [s[|s| - 1]];
    }
  }

  /** Soundness: every element of the result is an IPv4 entry that is not internal. */
  lemma AllIpAddrsSound(ifaces: Interfaces)
    ensures forall a :: a in AllIpAddrs(ifaces) ==> IsReported(a.infos)
  {
    AllIpAddrsIsKeepOfFlatten(ifaces);
    forall a | a in AllIpAddrs(ifaces)
      ensures IsReported(a.infos)
    {
      KeepMembers(Flatten(ifaces), a);
    }
  }

  /**
   Soundness and completeness together: an element is in the result exactly
   when it is some interface's entry, paired with that interface's name, and
   that entry is IPv4 and not internal.
   */
  lemma AllIpAddrsMembers(ifaces: Interfaces, a: IpAddr)
    ensures a in AllIpAddrs(ifaces) <==>
      IsReported(a.infos) &&
      exists i, j :: 0 <= i < |ifaces| && 0 <= j < |ifaces[i].1| && a == IpAddr(ifaces[i].0, ifaces[i].1[j])
  {
    AllIpAddrsIsKeepOfFlatten(ifaces);
    KeepMembers(Flatten(ifaces), a);
    FlattenMembers(ifaces, a);
  }

  /** Completeness: every IPv4 entry that is not internal appears, paired with its interface's name. */
  lemma AllIpAddrsComplete(ifaces: Interfaces, i: nat, j: nat)
    requires i < |ifaces| && j < |ifaces[i].1|
    requires IsReported(ifaces[i].1[j])
    ensures IpAddr(ifaces[i].0, ifaces[i].1[j]) in AllIpAddrs(ifaces)
  {
    AllIpAddrsMembers(ifaces, IpAddr(ifaces[i].0, ifaces[i].1[j]));
  }
}
