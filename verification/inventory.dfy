/** The inventory source base (suzieq/poller/controller/source/base_source.py):
    the required-keys check of a device inventory, the stored inventory of a
    source taken sequentially, the structural check of an inventory file and
    the resolution of its named configurations with `copy`.

  The semaphores of the source are not modelled: with one thread every lock
  is free, and waiting for an inventory nobody sets ends in the timeout.
 */
module InventorySource {

  import opened Outcomes
  import opened PyValues
  import Strings
  import Tables

  // ---------------------------------------------------------- required keys

  /** `_inv_format`: the keys every device of an inventory carries. */
  const InvFormat: seq<string> :=
    ["id", "address", "namespace", "port", "transport", "username", "password", "ssh_keyfile", "devtype"]

  /** The format keys other than the two credentials. */
  const Required: seq<string> := ["id", "address", "namespace", "port", "transport", "username", "devtype"]

  /** The entry reported when a device has neither credential. */
  const EitherCredential: string := "password or ssh_keyfile"

  /** The two keys of which one is enough. */
  predicate Credential(k: string) {
    k == "password" || k == "ssh_keyfile"
  }

  /** The format is the required keys and the two credentials. */
  lemma FormatKeys()
    ensures forall k :: k in InvFormat <==> k in Required || Credential(k)
  {
  }

  /** No required key is a credential or the credential entry. */
  lemma RequiredKeys()
    ensures forall k :: k in Required ==> !Credential(k) && k != EitherCredential
  {
  }

  /** A device with every required key and at least one credential. */
  predicate DeviceValid(d: Dict) {
    && (forall k :: k in Required ==> k in d)
    && ("password" in d || "ssh_keyfile" in d)
  }

  /** The report for one device (lines 148-167): its missing required keys,
      followed by `EitherCredential` when both credentials are missing; a
      single missing credential is never reported. The source lists a set,
      whose order Python does not fix; here the keys keep the format
      order. */
  function MissingKeys(d: Dict): (r: seq<string>)
    ensures forall k :: k in r <==>
              || (k in Required && k !in d)
              || (k == EitherCredential && "password" !in d && "ssh_keyfile" !in d)
    ensures r == [] <==> DeviceValid(d)
  {
    RequiredKeys();
    Report(Required, d)
  }

  /** The credential entry ends the report exactly when both credentials
      are missing. */
  lemma EitherCredentialLast(d: Dict)
    ensures var r := MissingKeys(d);
            ("password" !in d && "ssh_keyfile" !in d) <==> (|r| > 0 && r[|r| - 1] == EitherCredential)
  {
    RequiredKeys();
  }

  /** A credential is never reported on its own. */
  lemma CredentialsNeverReported(d: Dict)
    ensures "password" !in MissingKeys(d) && "ssh_keyfile" !in MissingKeys(d)
  {
    RequiredKeys();
    assert |EitherCredential| == 23 && |"password"| == 8 && |"ssh_keyfile"| == 11;
    assert Credential("password") && Credential("ssh_keyfile");
  }

  /** The missing keys of `required`, then the credential entry. */
  function Report(required: seq<string>, d: Dict): (r: seq<string>)
    requires forall k :: k in required ==> !Credential(k) && k != EitherCredential
    ensures forall k :: k in r <==>
              || (k in required && k !in d)
              || (k == EitherCredential && "password" !in d && "ssh_keyfile" !in d)
    ensures ("password" !in d && "ssh_keyfile" !in d) <==> (|r| > 0 && r[|r| - 1] == EitherCredential)
    ensures r == [] <==> (forall k :: k in required ==> k in d) && ("password" in d || "ssh_keyfile" in d)
    ensures "password" !in r && "ssh_keyfile" !in r
  {
    var missing := Tables.Where(required, (k: string) => k !in d);
    assert |EitherCredential| == 23 && |"password"| == 8 && |"ssh_keyfile"| == 11;
    assert Credential("password") && Credential("ssh_keyfile");
    if "password" !in d && "ssh_keyfile" !in d then missing + [EitherCredential]
    else
      assert |missing| > 0 ==> missing[|missing| - 1] in required;
      missing
  }

  /** `_is_invalid_inventory`: the report of the first device that is not
      valid, or `[]` when all are. */
  function IsInvalidInventory(inventory: seq<Dict>): (r: seq<string>)
    ensures r == [] <==> forall i :: 0 <= i < |inventory| ==> DeviceValid(inventory[i])
    ensures r != [] ==> exists i :: 0 <= i < |inventory| && r == MissingKeys(inventory[i]) &&
                                    forall j :: 0 <= j < i ==> DeviceValid(inventory[j])
  {
    var r := FirstReport(inventory, MissingKeys);
    assert forall i :: 0 <= i < |inventory| ==> (MissingKeys(inventory[i]) == [] <==> DeviceValid(inventory[i]));
    r
  }

  /** The first non-empty report of the items, or `[]` when there is none. */
  function FirstReport<T>(xs: seq<T>, report: T -> seq<string>): (r: seq<string>)
    ensures r == [] <==> forall i :: 0 <= i < |xs| ==> report(xs[i]) == []
    ensures r != [] ==> exists i :: 0 <= i < |xs| && r == report(xs[i]) &&
                                    forall j :: 0 <= j < i ==> report(xs[j]) == []
    decreases |xs|
  {
    if |xs| == 0 then []
    else if report(xs[0]) != [] then report(xs[0])
    else
      var rest := FirstReport(xs[1..], report);
      assert forall i :: 1 <= i < |xs| ==> xs[i] == xs[1..][i - 1];
      if rest == [] then []
      else
        var i :| 0 <= i < |xs[1..]| && rest == report(xs[1..][i]) &&
                 forall j :: 0 <= j < i ==> report(xs[1..][j]) == [];
        assert rest == report(xs[i + 1]);
        rest
  }

  // -------------------------------------------------------- stored inventory

  /** What a source holds: its inventory and whether it was ever set. */
  datatype Store = Store(inventory: seq<Dict>, isSet: bool)

  /** A source as constructed (lines 22-23). */
  function NewStore(): (s: Store)
    ensures !s.isSet && s.inventory == []
  {
    Store([], false)
  }

  /** `set_inventory` (lines 116-131): an inventory with a device missing
      keys raises `ValueError` and leaves the source as it was; a valid one
      replaces the stored inventory and marks it set. */
  function SetInventory(s: Store, inventory: seq<Dict>): (r: (Store, Outcome))
    ensures r.1.Fail? <==> exists i :: 0 <= i < |inventory| && !DeviceValid(inventory[i])
    ensures r.1.Fail? ==> r.0 == s && r.1.error.exc == ValueError
    ensures r.1.Pass? ==> r.0.isSet && r.0.inventory == inventory
  {
    if IsInvalidInventory(inventory) != [] then (s, Fail(Error(ValueError, "Invalid inventory: missing keys")))
    else (Store(inventory, true), Pass)
  }

  /** `get_inventory` (lines 77-96): a negative timeout raises `ValueError`;
      before any inventory was set the wait ends in `TimeoutError`;
      otherwise a copy of the stored inventory. */
  function GetInventory(s: Store, timeout: int): (r: Result<seq<Dict>>)
    ensures timeout < 0 <==> r.Err? && r.error.exc == ValueError
    ensures timeout >= 0 && !s.isSet <==> r.Err? && r.error.exc == TimeoutError
    ensures r.Ok? ==> s.isSet && r.value == s.inventory
  {
    if timeout < 0 then Err(Error(ValueError, "timeout value must be positive"))
    else if !s.isSet then Err(Error(TimeoutError, "Unable to acquire the lock before the timeout expiration"))
    else Ok(s.inventory)
  }

  /** After a valid inventory is set, reading it back gives the same list. */
  lemma SetThenGet(s: Store, inventory: seq<Dict>, timeout: int)
    requires forall i :: 0 <= i < |inventory| ==> DeviceValid(inventory[i])
    requires timeout >= 0
    ensures SetInventory(s, inventory).1 == Pass
    ensures GetInventory(SetInventory(s, inventory).0, timeout) == Ok(inventory)
  {
  }

  /** A rejected inventory leaves what the source answers unchanged. */
  lemma RejectedSetKeepsInventory(s: Store, inventory: seq<Dict>, timeout: int)
    requires exists i :: 0 <= i < |inventory| && !DeviceValid(inventory[i])
    ensures GetInventory(SetInventory(s, inventory).0, timeout) == GetInventory(s, timeout)
  {
  }

  // ------------------------------------------------- structure of the file

  /** The three sections of named items. */
  const Sections: seq<string> := ["sources", "devices", "auths"]

  /** Python's `key in v` for the inventory read from the file: dictionary
      keys, list elements or a substring; other values raise `TypeError`. */
  function PyIn(key: string, v: Value): (r: Result<bool>)
    ensures v.VDict? ==> r == Ok(key in v.entries)
    ensures r.Err? <==> v.VNull? || v.VBool? || v.VInt?
  {
    match v
    case VDict(entries) => Ok(key in entries)
    case VList(items) => Ok(VStr(key) in items)
    case VStr(s) => Ok(Strings.Contains(s, key))
    case _ => Err(Error(TypeError, "argument is not iterable"))
  }

  /** The elements of a `for x in v` loop whose body first calls `x.get`:
      a list gives its elements; the keys of a dictionary and the
      characters of a string are strings, so a non-empty one raises
      `AttributeError` on its first element; other values are not
      iterable. */
  function GetItems(v: Value): (r: Result<seq<Value>>)
    ensures v.VList? ==> r == Ok(v.items)
    ensures r.Ok? ==> v.VList? || r.value == []
  {
    match v
    case VList(items) => Ok(items)
    case VDict(entries) =>
      if |entries| == 0 then Ok([]) else Err(Error(AttributeError, "'str' object has no attribute 'get'"))
    case VStr(s) =>
      if |s| == 0 then Ok([]) else Err(Error(AttributeError, "'str' object has no attribute 'get'"))
    case _ => Err(Error(TypeError, "object is not iterable"))
  }

  /** `item.get(key)` on an item known to be a dictionary; `None` otherwise. */
  function Field(item: Value, key: string): Value {
    if item.VDict? then Get(item.entries, key) else VNull
  }

  /** The names registered before item `i`. */
  function NamesBefore(items: seq<Value>, i: int): (names: seq<Value>)
    requires 0 <= i <= |items|
    ensures |names| == i && forall j :: 0 <= j < i ==> names[j] == Field(items[j], "name")
  {
    seq(i, j requires 0 <= j < i => Field(items[j], "name"))
  }

  /** The names a `copy` of item `i` may refer to: as written the item's
      own name is registered before the check (line 309), so an item may
      copy itself; corrected, only items before it. */
  function CopyTargets(items: seq<Value>, i: int, fixed: bool): seq<Value>
    requires 0 <= i < |items|
  {
    if fixed then NamesBefore(items, i) else NamesBefore(items, i) + [Field(items[i], "name")]
  }

  /** Item `i` of a section passes (lines 302-318): a dictionary with a
      truthy name not used before, whose truthy `copy` names a known item. */
  predicate ItemOk(items: seq<Value>, i: int, fixed: bool)
    requires 0 <= i < |items|
  {
    && items[i].VDict?
    && Truthy(Field(items[i], "name"))
    && Field(items[i], "name") !in NamesBefore(items, i)
    && (Truthy(Field(items[i], "copy")) ==> Field(items[i], "copy") in CopyTargets(items, i, fixed))
  }

  /** The exception item `i` raises when it does not pass. */
  function ItemError(items: seq<Value>, i: int, fixed: bool): (e: Error)
    requires 0 <= i < |items| && !ItemOk(items, i, fixed)
    ensures items[i].VDict? <==> e.exc == InventorySourceError
  {
    if !items[i].VDict? then Error(AttributeError, "object has no attribute 'get'")
    else if !Truthy(Field(items[i], "name")) then Error(InventorySourceError, "items must have a 'name'")
    else if Field(items[i], "name") in NamesBefore(items, i) then Error(InventorySourceError, "name is not unique")
    else Error(InventorySourceError, "value must be a 'name' of an already defined item")
  }

  /** The loop over the items of a section from item `i` on: the first item
      that does not pass raises. */
  function CheckItems(items: seq<Value>, i: int, fixed: bool): (o: Outcome)
    requires 0 <= i <= |items|
    ensures o.Pass? <==> forall j :: i <= j < |items| ==> ItemOk(items, j, fixed)
    ensures o.Fail? ==> exists j :: && i <= j < |items| && !ItemOk(items, j, fixed)
                                    && (forall k :: i <= k < j ==> ItemOk(items, k, fixed))
                                    && o.error == ItemError(items, j, fixed)
    decreases |items| - i
  {
    if i == |items| then Pass
    else if !ItemOk(items, i, fixed) then Fail(ItemError(items, i, fixed))
    else
      var o := CheckItems(items, i + 1, fixed);
      assert o.Fail? ==> exists j :: && i <= j < |items| && !ItemOk(items, j, fixed)
                                     && (forall k :: i <= k < j ==> ItemOk(items, k, fixed))
                                     && o.error == ItemError(items, j, fixed) by {
        if o.Fail? {
          var j :| && i + 1 <= j < |items| && !ItemOk(items, j, fixed)
                   && (forall k :: i + 1 <= k < j ==> ItemOk(items, k, fixed))
                   && o.error == ItemError(items, j, fixed);
          assert forall k :: i <= k < j ==> ItemOk(items, k, fixed);
        }
      }
      o
  }

  /** One section (lines 296-318): a falsy value is an omitted section; any
      other must be a list whose items all pass. */
  function CheckSection(fields: Value, fixed: bool): (o: Outcome)
    ensures o.Pass? <==> SectionValid(fields, fixed)
  {
    if !Truthy(fields) then Pass
    else if !fields.VList? then Fail(Error(InventorySourceError, "content must be a list"))
    else CheckItems(fields.items, 0, fixed)
  }

  /** A section as the check accepts it, item by item. */
  predicate SectionValid(fields: Value, fixed: bool) {
    !Truthy(fields) || (fields.VList? && forall i :: 0 <= i < |fields.items| ==> ItemOk(fields.items, i, fixed))
  }

  /** The names registered for a section: those of its items, when it is a
      list. */
  function SectionNames(fields: Value): seq<Value> {
    if Truthy(fields) && fields.VList? then NamesBefore(fields.items, |fields.items|) else []
  }

  /** A namespace entry (lines 321-335): a dictionary with a truthy source
      naming a source, and a device and auth, when truthy, naming items. */
  predicate NamespaceOk(ns: Value, sources: seq<Value>, devices: seq<Value>, auths: seq<Value>) {
    && ns.VDict?
    && Truthy(Field(ns, "source")) && Field(ns, "source") in sources
    && (Truthy(Field(ns, "device")) ==> Field(ns, "device") in devices)
    && (Truthy(Field(ns, "auth")) ==> Field(ns, "auth") in auths)
  }

  /** The exception of a namespace entry that does not pass. */
  function NamespaceError(ns: Value, sources: seq<Value>, devices: seq<Value>, auths: seq<Value>): (e: Error)
    requires !NamespaceOk(ns, sources, devices, auths)
    ensures ns.VDict? <==> e.exc == InventorySourceError
  {
    if !ns.VDict? then Error(AttributeError, "object has no attribute 'get'")
    else if !Truthy(Field(ns, "source")) then Error(InventorySourceError, "all namespaces need 'source' field")
    else if Field(ns, "source") !in sources then Error(InventorySourceError, "No source called")
    else if Truthy(Field(ns, "device")) && Field(ns, "device") !in devices then Error(InventorySourceError, "No device called")
    else Error(InventorySourceError, "No auth called")
  }

  /** The loop over the namespace entries from entry `i` on. */
  function CheckNamespaces(nss: seq<Value>, i: int, sources: seq<Value>, devices: seq<Value>, auths: seq<Value>): (o: Outcome)
    requires 0 <= i <= |nss|
    ensures o.Pass? <==> forall j :: i <= j < |nss| ==> NamespaceOk(nss[j], sources, devices, auths)
    ensures o.Fail? ==> exists j :: && i <= j < |nss| && !NamespaceOk(nss[j], sources, devices, auths)
                                    && (forall k :: i <= k < j ==> NamespaceOk(nss[k], sources, devices, auths))
                                    && o.error == NamespaceError(nss[j], sources, devices, auths)
    decreases |nss| - i
  {
    if i == |nss| then Pass
    else if !NamespaceOk(nss[i], sources, devices, auths) then Fail(NamespaceError(nss[i], sources, devices, auths))
    else
      var o := CheckNamespaces(nss, i + 1, sources, devices, auths);
      assert o.Fail? ==> exists j :: && i <= j < |nss| && !NamespaceOk(nss[j], sources, devices, auths)
                                     && (forall k :: i <= k < j ==> NamespaceOk(nss[k], sources, devices, auths))
                                     && o.error == NamespaceError(nss[j], sources, devices, auths) by {
        if o.Fail? {
          var j :| && i + 1 <= j < |nss| && !NamespaceOk(nss[j], sources, devices, auths)
                   && (forall k :: i + 1 <= k < j ==> NamespaceOk(nss[k], sources, devices, auths))
                   && o.error == NamespaceError(nss[j], sources, devices, auths);
          assert forall k :: i <= k < j ==> NamespaceOk(nss[k], sources, devices, auths);
        }
      }
      o
  }

  /** An inventory file as the check accepts it: a dictionary with `sources`
      and `namespaces`, every section valid, and the namespaces a list
      (possibly empty or falsy-iterable) of entries naming defined items. */
  predicate RawInventoryValid(v: Value, fixed: bool) {
    && v.VDict? && |v.entries| > 0
    && "sources" in v.entries && "namespaces" in v.entries
    && (forall s :: s in Sections ==> SectionValid(Get(v.entries, s), fixed))
    && GetItems(Get(v.entries, "namespaces")).Ok?
    && var sources := SectionNames(Get(v.entries, "sources"));
       var devices := SectionNames(Get(v.entries, "devices"));
       var auths := SectionNames(Get(v.entries, "auths"));
       var nss := GetItems(Get(v.entries, "namespaces")).value;
       forall i :: 0 <= i < |nss| ==> NamespaceOk(nss[i], sources, devices, auths)
  }

  /** `_validate_raw_inventory` (lines 282-335). An empty inventory and one
      without `sources` or `namespaces` raise `InventorySourceError`. */
  function ValidateRawInventory(v: Value, fixed: bool): (o: Outcome)
    ensures !Truthy(v) ==> o == Fail(Error(InventorySourceError, "The inventory is empty"))
    ensures v.VDict? && Truthy(v) && ("sources" !in v.entries || "namespaces" !in v.entries) ==>
              o == Fail(Error(InventorySourceError, "'sources' and 'namespaces' fields must be specified"))
    ensures o.Pass? <==> RawInventoryValid(v, fixed)
  {
    if !Truthy(v) then Fail(Error(InventorySourceError, "The inventory is empty"))
    else
      var hasSources := PyIn("sources", v);
      if hasSources.Err? then Fail(hasSources.error)
      else if !hasSources.value then Fail(Error(InventorySourceError, "'sources' and 'namespaces' fields must be specified"))
      else if !PyIn("namespaces", v).value then Fail(Error(InventorySourceError, "'sources' and 'namespaces' fields must be specified"))
      else if !v.VDict? then Fail(Error(AttributeError, "object has no attribute 'get'"))
      else CheckContents(v.entries, fixed)
  }

  /** The sections and then the namespaces of an inventory (lines 290-335). */
  function CheckContents(d: Dict, fixed: bool): (o: Outcome)
    ensures o.Pass? <==>
              && (forall s :: s in Sections ==> SectionValid(Get(d, s), fixed))
              && GetItems(Get(d, "namespaces")).Ok?
              && var nss := GetItems(Get(d, "namespaces")).value;
                 forall i :: 0 <= i < |nss| ==>
                   NamespaceOk(nss[i], SectionNames(Get(d, "sources")), SectionNames(Get(d, "devices")),
                               SectionNames(Get(d, "auths")))
  {
    var sources := CheckSection(Get(d, "sources"), fixed);
    var devices := CheckSection(Get(d, "devices"), fixed);
    var auths := CheckSection(Get(d, "auths"), fixed);
    var nss := GetItems(Get(d, "namespaces"));
    assert forall s :: s in Sections ==> s == "sources" || s == "devices" || s == "auths";
    if sources.Fail? then sources
    else if devices.Fail? then devices
    else if auths.Fail? then auths
    else if nss.Err? then Fail(nss.error)
    else CheckNamespaces(nss.value, 0, SectionNames(Get(d, "sources")),
                         SectionNames(Get(d, "devices")), SectionNames(Get(d, "auths")))
  }

  // -------------------------------------------------- named configurations

  /** What one item adds to the configurations (lines 358-369): an item
      without a truthy name adds nothing; one without a truthy `copy` is
      stored as it is; one with a `copy` stores the copied configuration
      overridden by its own keys other than `copy`. Looking up a `copy`
      that is not there raises `KeyError`; an unhashable key raises
      `TypeError`. */
  function Step(configs: map<Value, Dict>, item: Value): (r: Result<map<Value, Dict>>)
    ensures r.Ok? && item.VDict? && Truthy(Field(item, "name")) && !Truthy(Field(item, "copy")) ==>
              r.value == configs[Field(item, "name") := item.entries]
    ensures r.Ok? && item.VDict? && Truthy(Field(item, "name")) && Truthy(Field(item, "copy")) ==>
              Field(item, "copy") in configs &&
              r.value == configs[Field(item, "name") := configs[Field(item, "copy")] + (item.entries - {"copy"})]
    ensures r.Ok? && !(item.VDict? && Truthy(Field(item, "name"))) ==> r.value == configs
    ensures r.Err? <==> || !item.VDict?
                        || (Truthy(Field(item, "name")) && !Truthy(Field(item, "copy")) && !Hashable(Field(item, "name")))
                        || (Truthy(Field(item, "name")) && Truthy(Field(item, "copy")) &&
                            (!Hashable(Field(item, "copy")) || Field(item, "copy") !in configs || !Hashable(Field(item, "name"))))
    ensures r.Err? && !item.VDict? ==> r.error.exc == AttributeError
    ensures r.Err? && item.VDict? ==>
              (r.error.exc == KeyError <==> Truthy(Field(item, "copy")) && Hashable(Field(item, "copy")) &&
                                            Field(item, "copy") !in configs)
    ensures r.Err? && item.VDict? ==> r.error.exc in {KeyError, TypeError}
  {
    if !item.VDict? then Err(Error(AttributeError, "object has no attribute 'get'"))
    else
      var obj := item.entries;
      var name := Get(obj, "name");
      var copy := Get(obj, "copy");
      if !Truthy(name) then Ok(configs)
      else if !Truthy(copy) then
        if Hashable(name) then Ok(configs[name := obj]) else Err(Error(TypeError, "unhashable type"))
      else if !Hashable(copy) then Err(Error(TypeError, "unhashable type"))
      else if copy !in configs then Err(Error(KeyError, "copy"))
      else if !Hashable(name) then Err(Error(TypeError, "unhashable type"))
      else Ok(configs[name := configs[copy] + (obj - {"copy"})])
  }

  /** The configurations after the first `n` items, in order; the first
      item that raises ends the loop. */
  function Configs(items: seq<Value>, n: int): Result<map<Value, Dict>>
    requires 0 <= n <= |items|
  {
    if n == 0 then Ok(map[])
    else
      var configs :- Configs(items, n - 1);
      Step(configs, items[n - 1])
  }

  /** `_get_inventory_config` (lines 351-371): a missing or falsy section
      gives no configurations. */
  function GetInventoryConfig(confType: string, inventory: Dict): (r: Result<map<Value, Dict>>)
    ensures !Truthy(Get(inventory, confType)) ==> r == Ok(map[])
    ensures Get(inventory, confType).VList? && Truthy(Get(inventory, confType)) ==>
              r == Configs(Get(inventory, confType).items, |Get(inventory, confType).items|)
  {
    var confList := Get(inventory, confType);
    if !Truthy(confList) then Ok(map[])
    else
      var items :- GetItems(confList);
      Configs(items, |items|)
  }

  /** The truthy names among the first `n` items. */
  ghost function NamedBefore(items: seq<Value>, n: int): set<Value>
    requires 0 <= n <= |items|
  {
    set i | 0 <= i < n && items[i].VDict? && Truthy(Field(items[i], "name")) :: Field(items[i], "name")
  }

  /** No two named items share a name. */
  ghost predicate DistinctNames(items: seq<Value>) {
    forall i, j ::
      (0 <= i < j < |items| && items[i].VDict? && items[j].VDict? && Truthy(Field(items[i], "name"))) ==>
        Field(items[i], "name") != Field(items[j], "name")
  }

  /** The configuration of named item `i` within `configs`: the item
      itself, or the configuration it copies overridden by its own keys. */
  ghost predicate Defines(configs: map<Value, Dict>, item: Value) {
    && item.VDict? && Field(item, "name") in configs
    && (!Truthy(Field(item, "copy")) ==> configs[Field(item, "name")] == item.entries)
    && (Truthy(Field(item, "copy")) ==>
          Field(item, "copy") in configs &&
          configs[Field(item, "name")] == configs[Field(item, "copy")] + (item.entries - {"copy"}))
  }

  /** The resolved configurations are keyed by the named items. */
  lemma {:induction false} ConfigsKeys(items: seq<Value>, n: int)
    requires 0 <= n <= |items|
    requires Configs(items, n).Ok?
    ensures Configs(items, n).value.Keys == NamedBefore(items, n)
  {
    if n > 0 {
      ConfigsKeys(items, n - 1);
      var item := items[n - 1];
      if item.VDict? && Truthy(Field(item, "name")) {
        assert NamedBefore(items, n) == NamedBefore(items, n - 1) + {Field(item, "name")};
      } else {
        assert NamedBefore(items, n) == NamedBefore(items, n - 1);
      }
    }
  }

  /** With distinct names, each named item's configuration is itself, or
      the configuration it copies overridden by its own keys except
      `copy`. */
  lemma {:induction false} ConfigsResolve(items: seq<Value>, n: int)
    requires 0 <= n <= |items| && DistinctNames(items)
    requires Configs(items, n).Ok?
    ensures forall i :: 0 <= i < n && items[i].VDict? && Truthy(Field(items[i], "name")) ==>
              Defines(Configs(items, n).value, items[i])
  {
    if n > 0 {
      ConfigsResolve(items, n - 1);
      ConfigsKeys(items, n - 1);
      var before := Configs(items, n - 1).value;
      var after := Configs(items, n).value;
      var item := items[n - 1];
      if item.VDict? && Truthy(Field(item, "name")) {
        var name := Field(item, "name");
        assert name !in before;
        assert after == before[name := after[name]];
        forall i | 0 <= i < n - 1 && items[i].VDict? && Truthy(Field(items[i], "name"))
          ensures Defines(after, items[i])
        {
          DefinesKept(before, name, after[name], items[i]);
        }
      }
    }
  }

  /** Storing a configuration under a new name keeps what the others
      define. */
  lemma DefinesKept(before: map<Value, Dict>, name: Value, config: Dict, item: Value)
    requires name !in before && Defines(before, item)
    ensures Defines(before[name := config], item)
  {
  }

  /** An inventory whose one source names itself as its `copy`. */
  function SelfCopying(): Value {
    VDict(map["sources" := VList([VDict(map["name" := VStr("a"), "copy" := VStr("a")])]), "namespaces" := VList([])])
  }

  /** The check as written accepts an item that copies itself. */
  lemma SelfCopyAccepted()
    ensures ValidateRawInventory(SelfCopying(), false) == Pass
  {
    var items := [VDict(map["name" := VStr("a"), "copy" := VStr("a")])];
    assert NamesBefore(items, 0) == [];
    assert ItemOk(items, 0, false);
  }

  /** Resolving the accepted inventory then raises `KeyError`. */
  lemma SelfCopyRaises()
    ensures GetInventoryConfig("sources", SelfCopying().entries).Err?
    ensures GetInventoryConfig("sources", SelfCopying().entries).error.exc == KeyError
  {
    var item := VDict(map["name" := VStr("a"), "copy" := VStr("a")]);
    assert Field(item, "name") == VStr("a") && Field(item, "copy") == VStr("a");
    assert Configs([item], 1) == Step(map[], item);
  }

  /** The corrected check rejects it. */
  lemma SelfCopyRejected()
    ensures ValidateRawInventory(SelfCopying(), true).Fail?
  {
    var items := [VDict(map["name" := VStr("a"), "copy" := VStr("a")])];
    assert NamesBefore(items, 0) == [];
    assert !ItemOk(items, 0, true);
  }

  /** With the corrected check, resolving any section of an accepted
      inventory never looks up a missing configuration: it succeeds unless
      a name is unhashable. */
  lemma ValidatedConfigsResolve(v: Value, section: string)
    requires ValidateRawInventory(v, true).Pass? && section in Sections
    ensures v.VDict?
    ensures var r := GetInventoryConfig(section, v.entries);
            r.Ok? || r.error.exc == TypeError
  {
    var fields := Get(v.entries, section);
    assert SectionValid(fields, true);
    if Truthy(fields) {
      ConfigsNoKeyError(fields.items, |fields.items|);
    }
  }

  /** Over items that pass the corrected check, the configurations are
      keyed by the names so far, and the loop raises at most `TypeError`. */
  lemma {:induction false} ConfigsNoKeyError(items: seq<Value>, n: int)
    requires 0 <= n <= |items|
    requires forall i :: 0 <= i < |items| ==> ItemOk(items, i, true)
    ensures Configs(items, n).Ok? ==> forall x :: x in NamesBefore(items, n) ==> x in Configs(items, n).value
    ensures Configs(items, n).Err? ==> Configs(items, n).error.exc == TypeError
  {
    if n > 0 {
      ConfigsNoKeyError(items, n - 1);
      var before := Configs(items, n - 1);
      if before.Ok? {
        assert ItemOk(items, n - 1, true);
        var r := Step(before.value, items[n - 1]);
        assert NamesBefore(items, n) == NamesBefore(items, n - 1) + [Field(items[n - 1], "name")];
      }
    }
  }

  /** Items that pass the check have distinct names. */
  lemma CheckedNamesDistinct(items: seq<Value>, fixed: bool)
    requires forall i :: 0 <= i < |items| ==> ItemOk(items, i, fixed)
    ensures DistinctNames(items)
  {
    forall i, j | 0 <= i < j < |items| && items[i].VDict? && items[j].VDict? && Truthy(Field(items[i], "name"))
      ensures Field(items[i], "name") != Field(items[j], "name")
    {
      assert ItemOk(items, j, fixed);
      assert NamesBefore(items, j)[i] == Field(items[i], "name");
    }
  }

  /** In an accepted inventory every section that resolves gives each item
      its own dictionary, or the one it copies overridden by its keys. */
  lemma AcceptedSectionsDefine(v: Value, fixed: bool, section: string)
    requires ValidateRawInventory(v, fixed).Pass? && section in Sections
    ensures v.VDict?
    ensures var fields := Get(v.entries, section);
            var r := GetInventoryConfig(section, v.entries);
            r.Ok? && fields.VList? ==>
              forall i :: 0 <= i < |fields.items| ==> Defines(r.value, fields.items[i])
  {
    var fields := Get(v.entries, section);
    assert SectionValid(fields, fixed);
    if Truthy(fields) && GetInventoryConfig(section, v.entries).Ok? {
      CheckedNamesDistinct(fields.items, fixed);
      ConfigsResolve(fields.items, |fields.items|);
      forall i | 0 <= i < |fields.items| ensures Defines(GetInventoryConfig(section, v.entries).value, fields.items[i]) {
        assert ItemOk(fields.items, i, fixed);
      }
    }
  }
}
