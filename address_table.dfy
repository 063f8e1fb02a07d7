/**
 The cells of the address table on the main page.

 For each element of the IPv4 address list the page writes one table row of
 four cells: name, type (family), CIDR and address. Each cell is a JavaScript
 property read on the pushed object `{interfaceName, infos}`, turned into text
 by template interpolation. Only those property reads and their conversion to
 text are modelled here, not the surrounding HTML.

 The page as written reads the property `name`, which the pushed object does
 not have; `RowAsWritten` models that and `Row` is the corrected row that
 reads `interfaceName`.
 */
module AddressTable {

  import opened NetworkAddresses

  /** A JavaScript value, as far as the address table reads one. */
  datatype JsValue = Undefined | Null | Str(s: string) | Bool(b: bool) | Obj(fields: map<string, JsValue>)

  /**
   Property access `v.key` on an object: `undefined` when it has no such
   property. Every access below is on an object, so reading a property of
   `undefined` or `null`, which throws, does not arise.
   */
  function Get(v: JsValue, key: string): JsValue
  {
    if v.Obj? && key in v.fields then v.fields[key] else Undefined
  }

  /** Template interpolation `${v}` of a value. */
  function Render(v: JsValue): string
  {
    match v
    case Undefined => "undefined"
    case Null => "null"
    case Str(s) => s
    case Bool(b) => if b then "true" else "false"
    case Obj(_) => "[object Object]"
  }

  /** An interface entry as the object the operating system hands back. */
  function EntryObject(e: IfaceEntry): JsValue
  {
    Obj(map[
      "address" := Str(e.address),
      "netmask" := Str(e.netmask),
      "family" := Str(e.family),
      "mac" := Str(e.mac),
      "internal" := Bool(e.internal),
      "cidr" := match e.cidr case None => Null case Some(c) => Str(c)])
  }

  /** The object pushed for one reported entry: `{interfaceName, infos}`. */
  function PushedObject(a: IpAddr): JsValue
  {
    Obj(map["interfaceName" := Str(a.interfaceName), "infos" := EntryObject(a.infos)])
  }

  /** The cells of one row as the page builds them: it reads `name` for the first cell. */
  function RowAsWritten(a: IpAddr): seq<string>
  {
    var ip := PushedObject(a);
    [ Render(Get(ip, "name")),
      Render(Get(Get(ip, "infos"), "family")),
      Render(Get(Get(ip, "infos"), "cidr")),
      Render(Get(Get(ip, "infos"), "address")) ]
  }

  /** The cells of one row as intended: the first cell reads `interfaceName`. */
  function Row(a: IpAddr): seq<string>
  {
    var ip := PushedObject(a);
    [ Render(Get(ip, "interfaceName")),
      Render(Get(Get(ip, "infos"), "family")),
      Render(Get(Get(ip, "infos"), "cidr")),
      Render(Get(Get(ip, "infos"), "address")) ]
  }

  /** The rows of the table for an address list, one per element, in order. */
  function Table(addrs: seq<IpAddr>): seq<seq<string>>
  {
    seq(|addrs|, k requires 0 <= k < |addrs| => Row(addrs[k]))
  }

  /**
   As written, the name cell of every row is the text "undefined", whatever the
   interface is called, while the other three cells are the intended ones.
   */
  lemma RowAsWrittenLosesName(a: IpAddr)
    ensures RowAsWritten(a)[0] == "undefined"
    ensures RowAsWritten(a)[1..] == Row(a)[1..]
  {
  }

  /** A concrete row: interface "eth0" with address 10.0.0.5 is shown with the name "undefined". */
  lemma Eth0RowAsWritten()
    ensures RowAsWritten(IpAddr("eth0", IfaceEntry("10.0.0.5", "255.255.255.0", "IPv4", "02:00:00:00:00:01", false, Some("10.0.0.5/24"))))
         == ["undefined", "IPv4", "10.0.0.5/24", "10.0.0.5"]
  {
  }

  /**
   The corrected row shows the interface name, the family, the CIDR (the text
   "null" when the system gives none) and the address of its entry.
   */
  lemma RowShowsEntry(a: IpAddr)
    ensures Row(a) == [ a.interfaceName, a.infos.family,
                        (match a.infos.cidr case None => "null" case Some(c) => c),
                        a.infos.address ]
  {
  }

  /**
   The corrected table for the address list of an interface table names, in
   each row, the interface the address belongs to, and shows the type "IPv4".
   */
  lemma TableNamesInterfaces(ifaces: Interfaces)
    ensures |Table(AllIpAddrs(ifaces))| == |AllIpAddrs(ifaces)|
    ensures forall k :: 0 <= k < |AllIpAddrs(ifaces)| ==>
              Table(AllIpAddrs(ifaces))[k][0] == AllIpAddrs(ifaces)[k].interfaceName &&
              Table(AllIpAddrs(ifaces))[k][1] == "IPv4"
  {
    AllIpAddrsSound(ifaces);
    var addrs := AllIpAddrs(ifaces);
    forall k | 0 <= k < |addrs|
      ensures Table(addrs)[k][0] == addrs[k].interfaceName && Table(addrs)[k][1] == "IPv4"
    {
      RowShowsEntry(addrs[k]);
      assert addrs[k] in addrs;
    }
  }
}
