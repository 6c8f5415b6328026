/** The Netbox inventory source (suzieq/poller/controller/source/netbox.py):
    the check of its configuration, the loading of that configuration with
    the server URL's defaults, and the translation of the devices the server
    returns into inventory records.

  `urlparse` is a parameter returning the parts of a URL the source reads.
  The REST retrieval, the session and the polling loop are not modelled:
  the server's answer is the parameter `raw`.
 */
module Netbox {

  import opened Outcomes
  import opened PyValues
  import Strings
  import Tables

  // ------------------------------------------------------ configuration

  /** The configuration keys `_validate_config` requires, in order. */
  const ConfigFields: seq<string> := ["token", "url", "auth"]

  /** The error reported for each of them. */
  const ConfigErrors: seq<string> := ["No netbox token provided", "No netbox url provided", "No device auth provided"]

  /** `_validate_config` (lines 91-104): one error per missing or false
      required field, in the order of the fields. */
  function ValidateConfig(config: Dict): (errors: seq<string>)
    ensures forall i :: 0 <= i < |ConfigFields| ==>
              (ConfigErrors[i] in errors <==> !Truthy(Get(config, ConfigFields[i])))
    ensures forall p, q, a, b ::
              (&& 0 <= p < q < |errors| && 0 <= a < |ConfigErrors| && 0 <= b < |ConfigErrors|
               && errors[p] == ConfigErrors[a] && errors[q] == ConfigErrors[b]) ==> a < b
    ensures errors == [] <==> forall i :: 0 <= i < |ConfigFields| ==> Truthy(Get(config, ConfigFields[i]))
  {
    assert ConfigErrors[0][10] == 't' && ConfigErrors[1][10] == 'u' && ConfigErrors[2][10] == 'a';
    assert ConfigErrors[0] != ConfigErrors[1] && ConfigErrors[0] != ConfigErrors[2] && ConfigErrors[1] != ConfigErrors[2];
    (if !Truthy(Get(config, "token")) then [ConfigErrors[0]] else [])
    + (if !Truthy(Get(config, "url")) then [ConfigErrors[1]] else [])
    + (if !Truthy(Get(config, "auth")) then [ConfigErrors[2]] else [])
  }

  /** A TCP port number. */
  type Port = p: int | 0 <= p <= 65535

  /** The port of a URL: absent, a number in range, or something else, on
      which reading the port raises `ValueError`. */
  datatype UrlPort = Absent | Number(n: Port) | Invalid

  /** What `urlparse` reports of a URL: its scheme (empty when absent), its
      port and its host name. */
  datatype ParsedUrl = ParsedUrl(scheme: string, port: UrlPort, hostname: Option<string>)

  /** `_DEFAULT_PORTS` (line 19). */
  function DefaultPort(scheme: string): (p: Option<Port>)
    ensures p.Some? <==> scheme == "http" || scheme == "https"
  {
    if scheme == "http" then Some(80)
    else if scheme == "https" then Some(443)
    else None
  }

  /** The loaded configuration of a Netbox source. */
  datatype Config = Config(
    protocol: string,
    port: Port,
    host: string,
    tag: Value,
    namespace: Value,
    period: Value,
    runOnce: Value,
    token: Value,
    auth: Value,
    device: Value)

  /** The port a parsed URL stands for (line 77): its own unless absent or
      zero, else the default of the scheme, if any. */
  function PortOf(u: ParsedUrl, protocol: string): (r: Result<Option<Port>>)
    ensures r.Err? <==> u.port.Invalid?
    ensures r.Err? ==> r.error.exc == ValueError
    ensures u.port.Number? && u.port.n != 0 ==> r == Ok(Some(u.port.n))
    ensures u.port.Absent? || u.port == Number(0) ==> r == Ok(DefaultPort(protocol))
  {
    match u.port
    case Invalid => Err(Error(ValueError, "Port could not be cast to integer value"))
    case Number(n) => if n != 0 then Ok(Some(n)) else Ok(DefaultPort(protocol))
    case Absent => Ok(DefaultPort(protocol))
  }

  /** `_load` (lines 55-89). An empty configuration and a missing URL raise
      `ValueError`; a URL without a port known for its scheme or without a
      host raises `InventorySourceError`. */
  function Load(input: Value, urlparse: string -> ParsedUrl): (r: Result<Config>)
    ensures !Truthy(input) ==> r == Err(Error(ValueError, "no netbox_config provided"))
    ensures Truthy(input) && input.VDict? && !Truthy(GetOr(input.entries, "url", VStr(""))) ==>
              r == Err(Error(ValueError, "netbox url not provided"))
    ensures r.Ok? ==> input.VDict? && "url" in input.entries && input.entries["url"].VStr?
    ensures r.Ok? ==>
              var u := urlparse(input.entries["url"].s);
              && r.value.protocol == (if u.scheme == "" then "http" else u.scheme)
              && !u.port.Invalid?
              && (if u.port.Number? && u.port.n != 0 then r.value.port == u.port.n
                  else Some(r.value.port) == DefaultPort(r.value.protocol))
              && r.value.port != 0
              && u.hostname == Some(r.value.host) && r.value.host != ""
    ensures r.Ok? ==>
              && r.value.tag == GetOr(input.entries, "tag", VStr("null"))
              && r.value.namespace == GetOr(input.entries, "namespace", VStr("site.name"))
              && r.value.period == GetOr(input.entries, "period", VInt(3600))
              && r.value.runOnce == GetOr(input.entries, "run_once", VBool(false))
    ensures input.VDict? && "url" in input.entries && input.entries["url"].VStr? && Truthy(input.entries["url"]) ==>
              var u := urlparse(input.entries["url"].s);
              var protocol := if u.scheme == "" then "http" else u.scheme;
              (r.Err? && r.error.exc == InventorySourceError <==>
                 && !u.port.Invalid?
                 && (|| ((u.port.Absent? || u.port == Number(0)) && DefaultPort(protocol).None?)
                     || u.hostname.None?
                     || u.hostname.value == ""))
  {
    if !Truthy(input) then
      Err(Error(ValueError, "no netbox_config provided"))
    else
      var config :- AsDict(input);
      var url := GetOr(config, "url", VStr(""));
      if !Truthy(url) then
        Err(Error(ValueError, "netbox url not provided"))
      else if !url.VStr? then
        Err(Error(AttributeError, "object has no attribute 'decode'"))
      else
        var u := urlparse(url.s);
        var protocol := if u.scheme == "" then "http" else u.scheme;
        var port :- PortOf(u, protocol);
        if port.None? || port.value == 0 || u.hostname.None? || u.hostname.value == "" then
          Err(Error(InventorySourceError, "netbox: invalid url provided"))
        else
          Ok(Config(
            protocol, port.value, u.hostname.value,
            GetOr(config, "tag", VStr("null")),
            GetOr(config, "namespace", VStr("site.name")),
            GetOr(config, "period", VInt(3600)),
            GetOr(config, "run_once", VBool(false)),
            Get(config, "token"),
            Get(config, "auth"),
            Get(config, "device")))
  }

  // ---------------------------------------------------------- field paths

  /** Following the components of a path from `v`: a missing or `None`
      component ends the walk with `None`; a component under something that
      is not a dictionary raises `AttributeError`. */
  function Walk(v: Value, fields: seq<string>): (r: Result<Value>)
    ensures r.Err? ==> r.error.exc == AttributeError
    decreases |fields|
  {
    if fields == [] then Ok(v)
    else if !v.VDict? then Err(Error(AttributeError, "object has no attribute 'get'"))
    else
      var next := Get(v.entries, fields[0]);
      if next == VNull then Ok(VNull) else Walk(next, fields[1..])
  }

  /** `get_field_value` (lines 168-178): the value at a dot-separated path
      of a device. */
  function GetFieldValue(entry: Dict, path: string): Result<Value> {
    Walk(VDict(entry), Strings.Split(path, '.'))
  }

  /** A walk along two paths one after the other is the walk along the
      joined path: it stops with `None` or an error where the first one
      does, and otherwise goes on from where the first one ended. */
  lemma {:induction false} WalkAppend(v: Value, a: seq<string>, b: seq<string>)
    requires a != []
    ensures var first := Walk(v, a);
            Walk(v, a + b) == if first.Ok? && first.value != VNull then Walk(first.value, b) else first
    decreases |a|
  {
    assert (a + b)[0] == a[0];
    if v.VDict? && Get(v.entries, a[0]) != VNull {
      assert (a + b)[1..] == a[1..] + b;
      if |a| > 1 {
        WalkAppend(Get(v.entries, a[0]), a[1..], b);
      } else {
        assert a[1..] == [];
      }
    }
  }

  /** The value at `p.q`, for a first component without a dot, is the
      value at `q` of the value at `p`. */
  lemma DottedPath(entry: Dict, p: string, q: string)
    requires '.' !in p
    ensures var first := GetFieldValue(entry, p);
            GetFieldValue(entry, p + "." + q) ==
              if first.Ok? && first.value != VNull then Walk(first.value, Strings.Split(q, '.')) else first
  {
    Strings.SplitAfterSeparatorFree(p, q, '.');
    Strings.SplitSeparatorFree(p, '.');
    assert p + "." + q == p + ['.'] + q;
    WalkAppend(VDict(entry), [p], Strings.Split(q, '.'));
  }

  // ------------------------------------------------------ device records

  /** The rows of the server's answer: iterating anything but a list of
      dictionaries fails at `device["name"]` or before. */
  function Rows(v: Value): (r: Result<seq<Value>>)
    ensures v.VList? ==> r == Ok(v.items)
    ensures r.Ok? ==> v.VList? || r.value == []
    ensures r.Err? ==> r.error.exc == TypeError
  {
    match v
    case VList(items) => Ok(items)
    case VDict(entries) => if |entries| == 0 then Ok([]) else Err(Error(TypeError, "string indices must be integers"))
    case VStr(s) => if |s| == 0 then Ok([]) else Err(Error(TypeError, "string indices must be integers"))
    case _ => Err(Error(TypeError, "object is not iterable"))
  }

  /** The relevant fields a record copies (`_RELEVANT_FIELDS`, lines 20-25),
      split at their dots. The fourth, `site.name`, is never read by a
      branch of the loop. */
  const NamePath: seq<string> := ["name"]
  const Ip6Path: seq<string> := ["primary_ip6", "address"]
  const Ip4Path: seq<string> := ["primary_ip4", "address"]

  /** The dotted names of the two address fields. */
  const Ip6Field: string := "primary_ip6" + "." + "address"
  const Ip4Field: string := "primary_ip4" + "." + "address"

  /** Splitting a dotted pair of dot-free names gives the two names. */
  lemma SplitPair(p: string, q: string)
    requires '.' !in p && '.' !in q
    ensures Strings.Split(p + "." + q, '.') == [p, q]
  {
    assert p + "." + q == p + ['.'] + q;
    Strings.SplitAfterSeparatorFree(p, q, '.');
    Strings.SplitSeparatorFree(q, '.');
  }

  /** Splitting the relevant field names at their dots gives those paths. */
  lemma RelevantPaths()
    ensures Strings.Split("name", '.') == NamePath
    ensures Strings.Split(Ip6Field, '.') == Ip6Path
    ensures Strings.Split(Ip4Field, '.') == Ip4Path
  {
    Strings.SplitSeparatorFree("name", '.');
    SplitPair("primary_ip6", "address");
    SplitPair("primary_ip4", "address");
  }

  /** The walk along `name` never fails: it gives the device's name, or
      `None` when it has none. */
  lemma WalkName(device: Dict)
    ensures Walk(VDict(device), NamePath) == Ok(Get(device, "name"))
  {
    assert NamePath[1..] == [];
  }

  /** The inventory record of one device. `address` is absent when the
      device has neither address. */
  datatype DeviceRecord = DeviceRecord(
    id: Value,
    ipv6: Value,
    ipv4: Value,
    address: Option<Value>,
    devtype: Value,
    transport: Value,
    port: int,
    namespace: Value)

  /** The keys every record carries. */
  const RecordKeys: set<string> := {"id", "ipv6", "ipv4", "devtype", "transport", "port", "namespace"}

  /** A record as the dictionary the source builds. It never holds a
      `site.name` key. */
  function AsEntry(r: DeviceRecord): (d: Dict)
    ensures d.Keys == RecordKeys + (if r.address.Some? then {"address"} else {})
    ensures "site.name" !in d
    ensures d["id"] == r.id
  {
    assert "site.name" !in RecordKeys + {"address"};
    var base := map["ipv6" := r.ipv6, "ipv4" := r.ipv4, "devtype" := r.devtype,
                    "transport" := r.transport, "port" := VInt(r.port),
                    "namespace" := r.namespace, "id" := r.id];
    if r.address.Some? then base["address" := r.address.value] else base
  }

  /** The record of one device (lines 185-217), under the device's name.
      Indexing something that is not a dictionary raises `TypeError`, a
      device without a name `KeyError`, a name that cannot be a key
      `TypeError`; a path through something that is not a dictionary and a
      device configuration that is not one raise `AttributeError`. */
  function Record(device: Value, devConfig: Value, namespace: Value): (r: Result<(Value, DeviceRecord)>)
    ensures r.Ok? <==>
              && device.VDict? && "name" in device.entries && Hashable(device.entries["name"])
              && GetFieldValue(device.entries, Ip6Field).Ok?
              && GetFieldValue(device.entries, Ip4Field).Ok?
              && devConfig.VDict?
    ensures r.Err? && device.VDict? && "name" in device.entries && Hashable(device.entries["name"]) ==>
              r.error.exc == AttributeError
    ensures r.Ok? ==>
              var (name, rec) := r.value;
              && name == device.entries["name"]
              && rec.id == name
              && GetFieldValue(device.entries, Ip6Field) == Ok(rec.ipv6)
              && GetFieldValue(device.entries, Ip4Field) == Ok(rec.ipv4)
              && (rec.address.Some? <==> Truthy(rec.ipv4) || Truthy(rec.ipv6))
              && (rec.address.Some? ==> rec.address.value == if Truthy(rec.ipv4) then rec.ipv4 else rec.ipv6)
              && rec.port == 22
    ensures r.Ok? ==>
              var t := Get(devConfig.entries, "transport");
              && r.value.1.devtype == Get(devConfig.entries, "devtype")
              && r.value.1.transport == (if Truthy(t) then t else VStr("ssh"))
    ensures r.Ok? ==> r.value.1.namespace == if namespace == VStr("site.name") then VStr("") else namespace
  {
    RelevantPaths();
    if !device.VDict? then
      Err(Error(TypeError, "object is not subscriptable"))
    else if "name" !in device.entries then
      Err(Error(KeyError, "'name'"))
    else
      var name := device.entries["name"];
      if !Hashable(name) then
        Err(Error(TypeError, "unhashable type"))
      else
        WalkName(device.entries);
        var id := Walk(device, NamePath).value;
        var ipv6 :- Walk(device, Ip6Path);
        var ipv4 :- Walk(device, Ip4Path);
        var address := if Truthy(ipv4) then Some(ipv4) else if Truthy(ipv6) then Some(ipv6) else None;
        var conf :- AsDict(devConfig);
        var transport := Get(conf, "transport");
        var rec := DeviceRecord(id, ipv6, ipv4, address, Get(conf, "devtype"),
                                if Truthy(transport) then transport else VStr("ssh"), 22, VNull);
        // The lookup happens before the record has a namespace; `AsEntry`
        // shows it with a placeholder, which does not change its keys.
        var ns := if namespace == VStr("site.name") then GetOr(AsEntry(rec), "site.name", VStr("")) else namespace;
        Ok((name, rec.(namespace := ns)))
  }

  /** The key of a named record. */
  function NameOf(x: (Value, DeviceRecord)): Value {
    x.0
  }

  /** `_parse_inventory` (lines 158-219): the records of the devices, one
      per name, in the order the names first appear, each built from the
      last device with its name. */
  function ParseInventory(raw: Dict, namespace: Value, devConfig: Value): (r: Result<seq<Dict>>)
    ensures r.Ok? <==>
              && Rows(GetOr(raw, "results", VList([]))).Ok?
              && var rows := Rows(GetOr(raw, "results", VList([]))).value;
                 forall i :: 0 <= i < |rows| ==> Record(rows[i], devConfig, namespace).Ok?
  {
    var rows :- Rows(GetOr(raw, "results", VList([])));
    var recs :- Outcomes.MapAll(rows, (d: Value) => Record(d, devConfig, namespace));
    Ok(Entries(Tables.IndexBy(recs, NameOf, |recs|)))
  }

  /** The dictionaries of indexed records, in index order. */
  function Entries(index: seq<(Value, (Value, DeviceRecord))>): (out: seq<Dict>)
    ensures |out| == |index|
    ensures forall i :: 0 <= i < |index| ==> out[i] == AsEntry(index[i].1.1)
  {
    seq(|index|, i requires 0 <= i < |index| => AsEntry(index[i].1.1))
  }

  /** The records of the devices of a successful parse, in device order. */
  function Records(raw: Dict, namespace: Value, devConfig: Value): (recs: seq<(Value, DeviceRecord)>)
    requires ParseInventory(raw, namespace, devConfig).Ok?
    ensures var rows := Rows(GetOr(raw, "results", VList([]))).value;
            |recs| == |rows| && forall i :: 0 <= i < |rows| ==> Record(rows[i], devConfig, namespace) == Ok(recs[i])
  {
    var rows := Rows(GetOr(raw, "results", VList([]))).value;
    seq(|rows|, i requires 0 <= i < |rows| => Record(rows[i], devConfig, namespace).value)
  }

  /** Indexing named records by name keeps each record under its own
      name, when every record's `id` is its name. */
  lemma IndexedIds(recs: seq<(Value, DeviceRecord)>)
    requires forall j :: 0 <= j < |recs| ==> recs[j].1.id == recs[j].0
    ensures var index := Tables.IndexBy(recs, NameOf, |recs|);
            forall i :: 0 <= i < |index| ==> index[i].1.1.id == index[i].0
  {
    var index := Tables.IndexBy(recs, NameOf, |recs|);
    forall i | 0 <= i < |index| ensures index[i].1.1.id == index[i].0 {
      var j := Tables.IndexLast(recs, NameOf, |recs|, i);
    }
  }

  /** Each record of the parse result has as `id` the name it is indexed
      under. */
  lemma ParseIds(raw: Dict, namespace: Value, devConfig: Value)
    requires ParseInventory(raw, namespace, devConfig).Ok?
    ensures var recs := Records(raw, namespace, devConfig);
            var index := Tables.IndexBy(recs, NameOf, |recs|);
            var out := ParseInventory(raw, namespace, devConfig).value;
            |out| == |index| && forall i :: 0 <= i < |out| ==> out[i] == AsEntry(index[i].1.1) && out[i]["id"] == index[i].0
  {
    var rows := Rows(GetOr(raw, "results", VList([]))).value;
    var recs := Outcomes.MapAll(rows, (d: Value) => Record(d, devConfig, namespace)).value;
    assert recs == Records(raw, namespace, devConfig);
    IndexedIds(recs);
  }

  /** One record per device name: no two records share an `id`. */
  lemma ParseOnePerName(raw: Dict, namespace: Value, devConfig: Value)
    requires ParseInventory(raw, namespace, devConfig).Ok?
    ensures var out := ParseInventory(raw, namespace, devConfig).value;
            forall i, j :: 0 <= i < j < |out| ==> out[i]["id"] != out[j]["id"]
  {
    var recs := Records(raw, namespace, devConfig);
    ParseIds(raw, namespace, devConfig);
    Tables.IndexDistinct(recs, NameOf, |recs|);
  }

  /** Every device's name has a record. */
  lemma ParseCoversNames(raw: Dict, namespace: Value, devConfig: Value, j: nat)
    requires ParseInventory(raw, namespace, devConfig).Ok?
    requires j < |Records(raw, namespace, devConfig)|
    ensures var out := ParseInventory(raw, namespace, devConfig).value;
            exists i :: 0 <= i < |out| && out[i]["id"] == Records(raw, namespace, devConfig)[j].0
  {
    var recs := Records(raw, namespace, devConfig);
    var index := Tables.IndexBy(recs, NameOf, |recs|);
    ParseIds(raw, namespace, devConfig);
    Tables.IndexKeys(recs, NameOf, |recs|);
    Tables.RowKeysMember(recs, NameOf, |recs|, NameOf(recs[j]));
    Tables.EntryKeysMember(index, NameOf(recs[j]));
  }

  /** A later device with a name already seen replaces the record's
      content: each record is the one of the last device with its name. */
  lemma ParseLastWins(raw: Dict, namespace: Value, devConfig: Value, i: nat) returns (j: nat)
    requires ParseInventory(raw, namespace, devConfig).Ok?
    requires i < |ParseInventory(raw, namespace, devConfig).value|
    ensures var recs := Records(raw, namespace, devConfig);
            && j < |recs|
            && ParseInventory(raw, namespace, devConfig).value[i] == AsEntry(recs[j].1)
            && forall q :: j < q < |recs| ==> recs[q].0 != recs[j].0
  {
    var recs := Records(raw, namespace, devConfig);
    ParseIds(raw, namespace, devConfig);
    j := Tables.IndexLast(recs, NameOf, |recs|, i);
  }

  /** Records are in the order the names first appear: a device carrying
      the name of a later record comes after a device carrying the name of
      an earlier one. */
  lemma ParseFirstSeenOrder(raw: Dict, namespace: Value, devConfig: Value, i: nat, i': nat, q: nat) returns (j: nat)
    requires ParseInventory(raw, namespace, devConfig).Ok?
    requires i < i' < |ParseInventory(raw, namespace, devConfig).value|
    requires q < |Records(raw, namespace, devConfig)|
    requires Records(raw, namespace, devConfig)[q].0 == ParseInventory(raw, namespace, devConfig).value[i']["id"]
    ensures j < q && Records(raw, namespace, devConfig)[j].0 == ParseInventory(raw, namespace, devConfig).value[i]["id"]
  {
    var recs := Records(raw, namespace, devConfig);
    ParseIds(raw, namespace, devConfig);
    j := Tables.IndexOrder(recs, NameOf, |recs|, i, i', q);
  }
}
