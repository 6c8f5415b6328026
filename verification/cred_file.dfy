/** The credential loader that reads a credentials file
    (suzieq/poller/controller/credential_loader/cred_file.py, `load`): each
    namespace entry of the file lists devices by name; each device's
    credentials are checked and merged into the inventory device with that
    id, and in the end every inventory device must have a username.

  Reading the YAML file (`init`) is not modelled: the parsed file is the
  parameter `raw`. The inventory devices and the file's credentials are
  updated in place by the source; here `Load` returns the updated inventory
  together with the file as the load leaves it.
 */
module CredFile {

  import opened Outcomes
  import opened PyValues
  import InventorySource
  import CredentialLoader

  /** The position of the first inventory device whose `id` equals `id`. */
  function FirstWithId(inventory: seq<Dict>, id: Value): (r: Option<nat>)
    ensures r.Some? ==> r.value < |inventory| && Get(inventory[r.value], "id") == id
    ensures r.Some? ==> forall j :: 0 <= j < r.value ==> Get(inventory[j], "id") != id
    ensures r.None? ==> forall j :: 0 <= j < |inventory| ==> Get(inventory[j], "id") != id
  {
    if |inventory| == 0 then None
    else if Get(inventory[0], "id") == id then Some(0)
    else match FirstWithId(inventory[1..], id)
      case None => None
      case Some(i) => Some(i + 1)
  }

  /** The credentials of one device entry as handed to the base class
      (lines 63-69): the entry must carry non-empty credentials holding a
      `keyfile`, which is renamed `ssh_keyfile`, and `options` is added. */
  function Prepare(info: Dict): (r: Result<Dict>)
    ensures var creds := GetOr(info, "credentials", VDict(map[]));
            r.Ok? <==> Truthy(creds) && creds.VDict? && "keyfile" in creds.entries
    ensures r.Ok? ==> var creds := info["credentials"].entries;
            && r.value.Keys == creds.Keys - {"keyfile"} + {"ssh_keyfile", "options"}
            && r.value["ssh_keyfile"] == creds["keyfile"]
            && forall k :: k in creds && k !in {"keyfile", "ssh_keyfile", "options"} ==> r.value[k] == creds[k]
  {
    var creds := GetOr(info, "credentials", VDict(map[]));
    if !Truthy(creds) then
      Err(Error(RuntimeError, "Device must contains credentials"))
    else if !creds.VDict? then
      Err(Error(TypeError, "indices must be integers"))
    else if "keyfile" !in creds.entries then
      Err(Error(KeyError, "'keyfile'"))
    else
      var options := Get(info, "options");
      var renamed := creds.entries["ssh_keyfile" := creds.entries["keyfile"]] - {"keyfile"};
      Ok(renamed["options" := if Truthy(options) then options else VDict(map[])])
  }

  /** The devices of an inventory after credentials were merged: the same
      number of devices, each keeping every key outside the credential keys
      and gaining no other key. */
  ghost predicate Keeps(before: seq<Dict>, after: seq<Dict>, fixed: bool) {
    && |after| == |before|
    && forall i :: 0 <= i < |before| ==>
         && before[i].Keys <= after[i].Keys
         && (forall k :: k in after[i] && k !in CredentialLoader.Allowed(fixed) ==> k in before[i])
         && (forall k :: k in before[i] && k !in CredentialLoader.Allowed(fixed) ==> after[i][k] == before[i][k])
  }

  lemma KeepsTrans(a: seq<Dict>, b: seq<Dict>, c: seq<Dict>, fixed: bool)
    requires Keeps(a, b, fixed) && Keeps(b, c, fixed)
    ensures Keeps(a, c, fixed)
  {
  }

  /** The name of a device entry, `""` when it has none. */
  function Name(info: Dict): Value {
    GetOr(info, "name", VStr(""))
  }

  /** `out` is `inventory` with device `i` given the entry's username and
      key file, every other device unchanged. */
  ghost predicate Merged(inventory: seq<Dict>, out: seq<Dict>, i: nat, info: Dict) {
    && i < |inventory| == |out|
    && (forall j :: 0 <= j < |out| && j != i ==> out[j] == inventory[j])
    && "credentials" in info && info["credentials"].VDict?
    && var creds := info["credentials"].entries;
       && "username" in creds && "keyfile" in creds
       && "username" in out[i] && out[i]["username"] == creds["username"]
       && "ssh_keyfile" in out[i] && out[i]["ssh_keyfile"] == creds["keyfile"]
  }

  /** The result of a load together with the parsed file after it: the
      source edits the credentials of the file's entries in place. */
  datatype Loaded<T> = Loaded(file: T, result: Result<seq<Dict>>)

  /** A device entry after lines 63-69 ran on it: its credentials are the
      renamed ones, and the file no longer holds a `keyfile` for it, so the
      same lines raise `KeyError` when they meet the entry again. Lines 63-69
      leave an entry they fail on as it was. */
  function Consume(entry: Value): (c: Value)
    ensures c != entry <==> entry.VDict? && Prepare(entry.entries).Ok?
    ensures c != entry ==> c.VDict? && Prepare(c.entries) == Err(Error(KeyError, "'keyfile'"))
    ensures c.VDict? <==> entry.VDict?
    ensures c.VDict? ==> && c.entries.Keys == entry.entries.Keys
                         && forall k :: k in entry.entries && k != "credentials" ==> c.entries[k] == entry.entries[k]
  {
    if entry.VDict? && Prepare(entry.entries).Ok? then
      var creds := Prepare(entry.entries).value;
      assert "keyfile" in entry.entries["credentials"].entries && "keyfile" !in creds;
      var c := VDict(entry.entries["credentials" := VDict(creds)]);
      assert "ssh_keyfile" in creds && Truthy(c.entries["credentials"]);
      c
    else entry
  }

  /** The checks of lines 47-61: the entry names a device, the first
      inventory device with that id exists and belongs to namespace `ns`. */
  predicate Matches(inventory: seq<Dict>, ns: Value, info: Dict) {
    && Truthy(Name(info))
    && FirstWithId(inventory, Name(info)).Some?
    && GetOr(inventory[FirstWithId(inventory, Name(info)).value], "namespace", VStr("")) == ns
  }

  /** One device entry of namespace `ns` (lines 46-71). It needs a name, the
      inventory device with that id must exist and belong to `ns`, and its
      credentials must pass the base check; then that device, the first
      with the id, gains them. As written, the added `options` key makes the
      base check fail for every entry that gets this far, and the entry is
      consumed in the file even so; the corrected loader works on a copy. */
  function LoadDevice(inventory: seq<Dict>, ns: Value, entry: Value, fixed: bool): (r: Loaded<Value>)
    ensures r.file == if !fixed && entry.VDict? && Matches(inventory, ns, entry.entries) then Consume(entry) else entry
    ensures r.result.Ok? ==> Keeps(inventory, r.result.value, fixed)
    ensures r.result.Ok? ==>
              && entry.VDict? && Matches(inventory, ns, entry.entries)
              && var i := FirstWithId(inventory, Name(entry.entries));
                 Merged(inventory, r.result.value, i.value, entry.entries)
    ensures entry.VDict? && Matches(inventory, ns, entry.entries) && Prepare(entry.entries).Err? ==>
              r.result == Err(Prepare(entry.entries).error)
    ensures !fixed ==> r.result.Err?
  {
    if !entry.VDict? then
      Loaded(entry, Err(AsDict(entry).error))
    else
      var info := entry.entries;
      var id := Name(info);
      if !Truthy(id) then
        Loaded(entry, Err(Error(RuntimeError, "Devices must have a name")))
      else match FirstWithId(inventory, id)
        case None => Loaded(entry, Err(Error(RuntimeError, "Unknown device")))
        case Some(i) =>
          if ns != GetOr(inventory[i], "namespace", VStr("")) then
            Loaded(entry, Err(Error(RuntimeError, "The device does not belong the namespace")))
          else
            var after := if fixed then entry else Consume(entry);
            match Prepare(info)
            case Err(e) => Loaded(after, Err(e))
            case Ok(creds) =>
              assert "options" in creds;
              match CredentialLoader.WriteCredentials(inventory[i], creds, fixed)
              case Err(e) => Loaded(after, Err(e))
              case Ok(device) =>
                MergeDevice(inventory, i, info, device, fixed);
                Loaded(after, Ok(inventory[i := device]))
  }

  /** Device `i` updated with the prepared credentials of `info` gains the
      username and key file, and nothing else changes; this happens only
      with the correction. */
  lemma MergeDevice(inventory: seq<Dict>, i: nat, info: Dict, device: Dict, fixed: bool)
    requires i < |inventory| && Prepare(info).Ok?
    requires CredentialLoader.WriteCredentials(inventory[i], Prepare(info).value, fixed) == Ok(device)
    ensures fixed
    ensures Keeps(inventory, inventory[i := device], fixed)
    ensures Merged(inventory, inventory[i := device], i, info)
  {
    assert "options" in Prepare(info).value;
  }

  /** A consumed entry that still matches its device raises `KeyError` at
      line 66, whichever base check follows. */
  lemma ConsumedEntryRaises(inventory: seq<Dict>, ns: Value, entry: Value, fixed: bool)
    requires entry.VDict? && Matches(inventory, ns, entry.entries) && Consume(entry) != entry
    ensures LoadDevice(inventory, ns, Consume(entry), fixed).result == Err(Error(KeyError, "'keyfile'"))
  {
    var c := Consume(entry);
    assert Name(c.entries) == Name(entry.entries);
  }

  /** Each entry of `after` is the entry of `before` at its place, unchanged
      or consumed. */
  ghost predicate EachConsumed(before: seq<Value>, after: seq<Value>) {
    |after| == |before| && forall k :: 0 <= k < |before| ==> after[k] == before[k] || after[k] == Consume(before[k])
  }

  /** The device entries of one namespace, in order. */
  function LoadDevices(inventory: seq<Dict>, ns: Value, entries: seq<Value>, fixed: bool): (r: Loaded<seq<Value>>)
    ensures EachConsumed(entries, r.file)
    ensures fixed ==> r.file == entries
    ensures r.result.Ok? ==> Keeps(inventory, r.result.value, fixed)
    ensures r.result.Ok? && !fixed ==> entries == []
    decreases entries
  {
    if entries == [] then
      Loaded([], Ok(inventory))
    else
      var d := LoadDevice(inventory, ns, entries[0], fixed);
      if d.result.Err? then
        Loaded([d.file] + entries[1..], d.result)
      else
        var rest := LoadDevices(d.result.value, ns, entries[1..], fixed);
        assert rest.result.Ok? ==> Keeps(inventory, rest.result.value, fixed) by {
          if rest.result.Ok? {
            KeepsTrans(inventory, d.result.value, rest.result.value, fixed);
          }
        }
        Loaded([d.file] + rest.file, rest.result)
  }

  /** A namespace entry of the file before and after a load: unchanged, or
      the same entry whose device list has its entries unchanged or
      consumed. */
  ghost predicate NamespaceConsumed(before: Value, after: Value) {
    || after == before
    || (&& before.VDict? && after.VDict?
        && "devices" in before.entries && before.entries["devices"].VList?
        && "devices" in after.entries && after.entries["devices"].VList?
        && after.entries == before.entries["devices" := after.entries["devices"]]
        && EachConsumed(before.entries["devices"].items, after.entries["devices"].items))
  }

  /** The namespace entries of the file, in order (lines 36-71): each needs
      a non-empty `namespace` and non-empty `devices`. */
  function LoadNamespaces(inventory: seq<Dict>, entries: seq<Value>, fixed: bool): (r: Loaded<seq<Value>>)
    ensures |r.file| == |entries| && forall k :: 0 <= k < |entries| ==> NamespaceConsumed(entries[k], r.file[k])
    ensures fixed ==> r.file == entries
    ensures r.result.Ok? ==> Keeps(inventory, r.result.value, fixed)
    ensures r.result.Ok? ==> forall e :: e in entries ==>
              && e.VDict?
              && Truthy(GetOr(e.entries, "namespace", VStr("")))
              && Truthy(GetOr(e.entries, "devices", VList([])))
    ensures r.result.Ok? && !fixed ==> entries == []
    decreases entries
  {
    if entries == [] then
      Loaded([], Ok(inventory))
    else if !entries[0].VDict? then
      Loaded(entries, Err(AsDict(entries[0]).error))
    else
      var entry := entries[0].entries;
      var ns := GetOr(entry, "namespace", VStr(""));
      var devices := GetOr(entry, "devices", VList([]));
      if !Truthy(ns) then
        Loaded(entries, Err(Error(RuntimeError, "All namespaces must have a name")))
      else if !Truthy(devices) then
        Loaded(entries, Err(Error(RuntimeError, "No devices in namespace")))
      else match InventorySource.GetItems(devices)
        case Err(e) => Loaded(entries, Err(e))
        case Ok(items) =>
          assert devices.VList? && "devices" in entry;
          var d := LoadDevices(inventory, ns, items, fixed);
          var first := VDict(entry["devices" := VList(d.file)]);
          assert fixed ==> first == entries[0] by {
            if fixed {
              assert entry["devices" := VList(d.file)] == entry;
            }
          }
          if d.result.Err? then
            Loaded([first] + entries[1..], d.result)
          else
            var rest := LoadNamespaces(d.result.value, entries[1..], fixed);
            assert rest.result.Ok? ==> Keeps(inventory, rest.result.value, fixed) by {
              if rest.result.Ok? {
                KeepsTrans(inventory, d.result.value, rest.result.value, fixed);
              }
            }
            Loaded([first] + rest.file, rest.result)
  }

  /** A device with a non-empty username. */
  predicate HasUsername(device: Dict) {
    Truthy(GetOr(device, "username", VNull))
  }

  /** `CredFile.load` (lines 25-82). An empty inventory raises first, then
      a file that is not a list of namespaces; after the merge every device
      must have a username. The file comes back with the entries the load
      consumed; the corrected loader leaves it as it was, so loading it
      again does the same. */
  function Load(inventory: seq<Dict>, raw: Value, fixed: bool): (r: Loaded<Value>)
    ensures |inventory| == 0 ==> r == Loaded(raw, Err(Error(RuntimeError, "Empty inventory")))
    ensures |inventory| > 0 && !raw.VList? ==> r.file == raw && r.result.Err? && r.result.error.exc == RuntimeError
    ensures r.result.Ok? ==> Keeps(inventory, r.result.value, fixed)
    ensures r.result.Ok? ==> forall i :: 0 <= i < |r.result.value| ==> HasUsername(r.result.value[i])
    ensures fixed ==> r.file == raw
    ensures r.file == raw || (&& raw.VList? && r.file.VList? && |r.file.items| == |raw.items|
                              && forall k :: 0 <= k < |raw.items| ==> NamespaceConsumed(raw.items[k], r.file.items[k]))
  {
    if |inventory| == 0 then
      Loaded(raw, Err(Error(RuntimeError, "Empty inventory")))
    else if !raw.VList? then
      Loaded(raw, Err(Error(RuntimeError, "The credentials file must contain all device credential divided in namespaces")))
    else
      var n := LoadNamespaces(inventory, raw.items, fixed);
      var file := VList(n.file);
      if n.result.Err? then
        Loaded(file, n.result)
      else if exists i :: 0 <= i < |n.result.value| && !HasUsername(n.result.value[i]) then
        Loaded(file, Err(Error(RuntimeError, "Some devices are left without credentials")))
      else
        Loaded(file, n.result)
  }

  /** As written, a load completes only for a file without namespaces, and
      then leaves the inventory and the file as they were. */
  lemma AsWrittenLoadsNothing(inventory: seq<Dict>, raw: Value)
    requires Load(inventory, raw, false).result.Ok?
    ensures raw == VList([]) && Load(inventory, raw, false) == Loaded(raw, Ok(inventory))
  {
  }

  /** An inventory of one device without credentials. */
  function OneDevice(): seq<Dict> {
    [map["id" := VStr("r1"), "namespace" := VStr("lab")]]
  }

  /** The file's entry for that device: a username and a key file. */
  function OneEntry(): Dict {
    var creds := VDict(map["username" := VStr("admin"), "keyfile" := VStr("/keys/r1")]);
    map["name" := VStr("r1"), "credentials" := creds]
  }

  /** A file with one namespace holding the given device entry. */
  function FileOf(entry: Value): Value {
    VList([VDict(map["namespace" := VStr("lab"), "devices" := VList([entry])])])
  }

  /** A file with one namespace holding that entry. */
  function OneCredential(): Value {
    FileOf(VDict(OneEntry()))
  }

  /** The entry matches the device of the one-device inventory. */
  lemma OneEntryMatches()
    ensures Matches(OneDevice(), VStr("lab"), OneEntry())
  {
    assert FirstWithId(OneDevice(), VStr("r1")) == Some(0);
  }

  /** As written, the well-formed file is rejected because of `options`. */
  lemma OptionsRejected()
    ensures Load(OneDevice(), OneCredential(), false).result.Err?
  {
  }

  /** The entry's credentials, renamed, carry exactly the username, the key
      file and the options. */
  lemma OneEntryPrepared()
    ensures Prepare(OneEntry()).Ok?
    ensures Prepare(OneEntry()).value.Keys == {"username", "ssh_keyfile", "options"}
  {
    assert GetOr(OneEntry(), "credentials", VDict(map[])) == OneEntry()["credentials"];
  }

  /** With the correction, those credentials are accepted. */
  lemma OneEntryWritten()
    ensures Prepare(OneEntry()).Ok?
    ensures CredentialLoader.WriteCredentials(OneDevice()[0], Prepare(OneEntry()).value, true).Ok?
  {
    OneEntryPrepared();
    var creds := Prepare(OneEntry()).value;
    assert forall k :: k in creds ==> k in CredentialLoader.Allowed(true);
    assert "username" in creds && "ssh_keyfile" in creds;
  }

  /** With the correction, the entry merges into the device. */
  lemma OneEntryMerges()
    ensures LoadDevice(OneDevice(), VStr("lab"), VDict(OneEntry()), true).result.Ok?
  {
    OneEntryWritten();
    OneEntryMatches();
  }

  /** A device list of one entry loads as that entry. */
  lemma SingleDevice(inventory: seq<Dict>, entry: Value, fixed: bool)
    ensures LoadDevices(inventory, VStr("lab"), [entry], fixed) ==
              var d := LoadDevice(inventory, VStr("lab"), entry, fixed);
              Loaded([d.file], d.result)
  {
    assert [entry][1..] == [];
    var d := LoadDevice(inventory, VStr("lab"), entry, fixed);
    if d.result.Ok? {
      assert LoadDevices(d.result.value, VStr("lab"), [], fixed) == Loaded([], d.result);
      assert [d.file] + [] == [d.file];
    } else {
      assert [d.file] + [entry][1..] == [d.file];
    }
  }

  /** A file of one namespace with one device entry loads as that entry,
      and comes back holding the entry as the load left it. */
  lemma SingleEntry(inventory: seq<Dict>, entry: Value, fixed: bool)
    requires |inventory| > 0
    ensures var d := LoadDevice(inventory, VStr("lab"), entry, fixed);
            var r := Load(inventory, FileOf(entry), fixed);
            && r.file == FileOf(d.file)
            && (d.result.Err? ==> r.result == d.result)
            && (d.result.Ok? && (forall i :: 0 <= i < |d.result.value| ==> HasUsername(d.result.value[i])) ==>
                  r.result == d.result)
  {
    SingleNamespace(inventory, entry, fixed);
  }

  /** The namespaces of a file of one namespace with one device entry load
      as that entry. */
  lemma SingleNamespace(inventory: seq<Dict>, entry: Value, fixed: bool)
    ensures LoadNamespaces(inventory, FileOf(entry).items, fixed) ==
              var d := LoadDevice(inventory, VStr("lab"), entry, fixed);
              Loaded(FileOf(d.file).items, d.result)
  {
    var e := map["namespace" := VStr("lab"), "devices" := VList([entry])];
    assert GetOr(e, "namespace", VStr("")) == VStr("lab");
    assert GetOr(e, "devices", VList([])) == VList([entry]);
    var d := LoadDevice(inventory, VStr("lab"), entry, fixed);
    SingleDevice(inventory, entry, fixed);
    var first := VDict(e["devices" := VList([d.file])]);
    assert e["devices" := VList([d.file])] == map["namespace" := VStr("lab"), "devices" := VList([d.file])];
    assert FileOf(d.file).items == [first];
    assert FileOf(entry).items == [VDict(e)] && [VDict(e)][1..] == [];
    if d.result.Ok? {
      assert LoadNamespaces(d.result.value, [], fixed) == Loaded([], d.result);
      assert [first] + [] == [first];
    } else {
      assert [first] + [VDict(e)][1..] == [first];
    }
  }

  /** With the correction, the same file loads and the device gains the
      username and the key file. */
  lemma OptionsAccepted()
    ensures Load(OneDevice(), OneCredential(), true).result.Ok?
    ensures var d := Load(OneDevice(), OneCredential(), true).result.value[0];
            "username" in d && d["username"] == VStr("admin") && "ssh_keyfile" in d && d["ssh_keyfile"] == VStr("/keys/r1")
  {
    OneEntryMerges();
    var next := LoadDevice(OneDevice(), VStr("lab"), VDict(OneEntry()), true);
    OneEntryMatches();
    assert Merged(OneDevice(), next.result.value, 0, OneEntry());
    assert HasUsername(next.result.value[0]);
    SingleEntry(OneDevice(), VDict(OneEntry()), true);
  }

  /** As written, a load consumes the entry's key file in the parsed file,
      so loading the same file again, as a source does on every poll, raises
      `KeyError` at line 66, even with `options` accepted; the corrected
      loader leaves the file as it was and loads it again. */
  lemma SecondLoadRaises()
    ensures var first := Load(OneDevice(), OneCredential(), false);
            && first.file != OneCredential()
            && Load(OneDevice(), first.file, false).result == Err(Error(KeyError, "'keyfile'"))
            && Load(OneDevice(), first.file, true).result == Err(Error(KeyError, "'keyfile'"))
    ensures var first := Load(OneDevice(), OneCredential(), true);
            first.file == OneCredential() && Load(OneDevice(), first.file, true).result.Ok?
  {
    var entry := VDict(OneEntry());
    OneEntryMatches();
    OneEntryPrepared();
    SingleEntry(OneDevice(), entry, false);
    var c := Consume(entry);
    assert LoadDevice(OneDevice(), VStr("lab"), entry, false).file == c;
    ConsumedEntryRaises(OneDevice(), VStr("lab"), entry, false);
    ConsumedEntryRaises(OneDevice(), VStr("lab"), entry, true);
    SingleEntry(OneDevice(), c, false);
    SingleEntry(OneDevice(), c, true);
    assert FileOf(c) != FileOf(entry) by {
      assert FileOf(c).items[0].entries["devices"].items[0] == c;
    }
    OptionsAccepted();
  }
}
