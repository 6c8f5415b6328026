# suzieq core, modelled in Dafny

This project models the parts of suzieq that do their work on plain data.
Pandas frames, graphviz objects, Streamlit widgets, HTTP answers and YAML
files become Dafny sequences, maps and datatypes. Each operation is a pure
function, or a method where a loop is the natural form. Its contract states
what the code promises, error cases included.

| module | file | what it models |
|---|---|---|
| `PathGraph` | path_graph.dfy | `build_graphviz_obj`: the layout choice, nodes, rank groups and first-seen edges of a path trace |
| `PathPage` | path_page.dfy | `PathSessionState`, the URL round trip of `page_work` and the `path_sidebar` state machine |
| `Routes` | routes.dfy | the route table `get` (the request it sends, extra columns, host prefixes, cleaning, prefix lengths, the length filter, `numNexthops`, and their composition under the guards of `get`) and `lpm` for IPv4 and IPv6 |
| `InventorySource` | inventory.dfy | the device key check, `set_inventory`/`get_inventory` taken sequentially, `_validate_raw_inventory` and `_get_inventory_config` |
| `CredentialLoader` | credential_loader.dfy | `_validate_credentials` and `write_credentials` |
| `CredFile` | cred_file.dfy | `CredFile.load`, which merges a credentials file into the inventory |
| `Netbox` | netbox.dfy | `_validate_config`, `_load` and `_parse_inventory` with `get_field_value` |
| `InventoryWriter` | inventory_writer.dfy | `write` and `_get_diff` of the polled-nodes writer |
| `Status` | status.dfy | the `ServiceStatus` values and `PrettyPrintEnum.__str__` |
| `Outcomes`, `PyValues`, `Strings`, `Seqs`, `Tables` | outcomes.dfy, values.dfy, strings.dfy, tables.dfy | results and exceptions, Python values, text helpers, and the table operations pandas provides |

Some names carry a `fixed` flag or a corrected twin. Where the source has a
defect (see "## Findings"), the member models the code as written when
`fixed` is false. When `fixed` is true it models what was evidently meant.

## Model

| member | source | states |
|---|---|---|
| PathGraph.HopGroups | suzieq/gui/pages/gui_path.py:110-111 | one group per distinct hop count, in ascending hop-count order, each holding exactly the hostnames seen at that hop count, without repeats |
| PathGraph.ChooseLayout | suzieq/gui/pages/gui_path.py:108-117 | the layout is `dot` exactly when none of the groups at positions 0 to 3 shares a hostname with the union of the groups before it |
| PathGraph.EdgeColor | suzieq/gui/pages/gui_path.py:150-158 | red exactly when the MTUs mismatch, whatever the overlay flag; green exactly when they match and the packet is encapsulated; black exactly when they match and it is not |
| PathGraph.MakeEdgeFields | suzieq/gui/pages/gui_path.py:160-187 | the edge label reads back as the current row's hop count; the tooltip holds the previous row's protocol, lookup, vrf and oif, the current iif, and "prev mtu -> row mtu"; the link contains the quoted namespace and the quoted host pair; tail and head labels are present exactly when interface names are shown |
| PathGraph.FirstOfKeyIffUnseen | suzieq/gui/pages/gui_path.py:149-150 | a linked row is the first of its host pair exactly when that pair was not produced by an earlier linked row |
| PathGraph.BuildPairs | suzieq/gui/pages/gui_path.py:140-190 | the row pass raises `AttributeError` exactly when the first row has path id 0; otherwise it lists, in increasing order, exactly the rows that are first of their host pair, each built from itself and the row just before it |
| PathGraph.BuildEdges | suzieq/gui/pages/gui_path.py:140-190 | one edge per distinct host pair of linked rows, in order of first occurrence, each built from the first row of its pair; the edge host pairs are exactly the pairs of the linked rows |
| PathGraph.FirstRowsGiveDistinctPairs | suzieq/gui/pages/gui_path.py:149-150 | no two edges share a host pair |
| PathGraph.BuiltEdgesOfRows | suzieq/gui/pages/gui_path.py:144-190 | every linked row's host pair is drawn, and every edge is the one built from the first row with its pair |
| PathGraph.GraphNodes | suzieq/gui/pages/gui_path.py:135-136 | the nodes hold every hostname of the table exactly once and nothing else |
| PathGraph.BuildGraph | suzieq/gui/pages/gui_path.py:101-191 | the layout follows the overlap rule; nodes are exactly the distinct hostnames; in the `dot` layout the same-rank groups are the hop groups; the wide node separation is set exactly when interface names are shown; the edges are those of the first-seen pass |
| PathPage.DefaultState | suzieq/gui/pages/gui_path.py:15-24 | the dataclass defaults: not running, interface names off, every text field empty |
| PathPage.Encode | suzieq/gui/pages/gui_path.py:235 | the query written back has exactly the field names as keys; `run` is "True" exactly when the state runs; the text fields are copied; `show_ifnames` is written as "True"/"False" when it is a boolean and as its text otherwise |
| PathPage.PageLink | suzieq/gui/pages/gui_path.py:202-203 | a link names the page `Path` and carries one value per field, the written field |
| PathPage.Arguments | suzieq/gui/pages/gui_path.py:203-206 | the constructor arguments are the URL parameters without `page` and `search_text` |
| PathPage.Restore | suzieq/gui/pages/gui_path.py:202-218 | a URL that does not name the page or has no value leaves the state alone; otherwise an empty value list raises `IndexError`, an unknown parameter raises `TypeError`, and the state is rebuilt from the first values: `run` true exactly for "True", every text field its first value or empty when missing, `show_ifnames` false when missing and otherwise the raw text as written or true exactly for "True" when corrected |
| PathPage.LinkArguments | suzieq/gui/pages/gui_path.py:202-218 | a link written for a state is restored, and its arguments are exactly the field names with their written values |
| PathPage.RestoreShowsIfnamesAsWritten | suzieq/gui/pages/gui_path.py:207-218 | as written, a state with interface names off comes back from its own link with the text "False", which is truthy |
| PathPage.RestoreLinkRoundTrip | suzieq/gui/pages/gui_path.py:207-218 | with `show_ifnames` converted like `run`, restoring a state's link gives back exactly that state, whatever the state before |
| PathPage.Widget | suzieq/gui/pages/gui_path.py:72-87 | a widget returns the user's input when there is one, and otherwise the value it was given |
| PathPage.Sidebar | suzieq/gui/pages/gui_path.py:55-98 | no namespace stops the page, and an unknown state namespace raises `ValueError`; otherwise the text and check boxes set their fields, and then `run` is false when namespace, source and dest are all empty, true on Trace, false with the selected namespace adopted when it differs, and `run` and namespace are kept otherwise |
| PathPage.RunState | suzieq/gui/pages/gui_path.py:194-218 | the state a run settles on has a boolean flag; with the check box untouched its interface names follow the URL value (any non-empty text as written, "True" only corrected); corrected it survives its own link, as written it does not when interface names are off; no namespace is an error |
| PathPage.Settled | suzieq/gui/pages/gui_path.py:194-218 | the session state the page keeps: the settled run state when there is one, the state before when the URL cannot be restored, and the restored state when the sidebar fails |
| PathPage.PageWork | suzieq/gui/pages/gui_path.py:194-258 | the session state is `Settled` on every exit, the one shown on success, and when the trace fails the page stops exactly when that state runs; after a run the URL holds the encoded state; with the check box untouched and the URL carrying a `show_ifnames` value, interface names are on exactly when that value is non-empty as written, and exactly when it is "True" corrected; corrected, the state survives its own link, and as written a state with interface names off does not; a graph is drawn exactly when the state runs and the trace is non-empty, with wide separation exactly when interface names are on; a failed trace leaves the state not running |
| PathPage.NextRunShowsIfnamesAsWritten | suzieq/gui/pages/gui_path.py:86-87 | as written, the run after a link written with interface names off, check box untouched, turns them on |
| Routes.ConsAddnlFields | suzieq/engines/pandas/routes.py:15-32 | the fields asked for gain exactly the drop list; `metric` is added exactly for `['default']` or a list other than `['*']` that lacks it; `ipvers` is added exactly when the columns lack it; nothing else is added, and nothing twice |
| Routes.DropColumns | suzieq/engines/pandas/routes.py:113-157 | the drop list starts with the extra fields' drop list; as written, `prefixlen` is on it exactly when a prefix-length filter is given or the prefix rows brought it in unrequested; corrected, exactly when it was not requested and a filter or the prefix rows brought it in |
| Routes.RequestedPrefixlenDropped | suzieq/engines/pandas/routes.py:113 | asking for `prefix, prefixlen` with a filter loses the `prefixlen` column as written, and keeps it corrected |
| Routes.HostPrefix | suzieq/engines/pandas/routes.py:123-127 | a non-empty prefix without `/` gains `/32` for IPv4 and `/128` otherwise; other prefixes are unchanged |
| Routes.NormalisePrefixes | suzieq/engines/pandas/routes.py:119-129 | the prefixes keep their number and order, each normalised, and all carry a length; the version passed on is that of the last prefix |
| Routes.NormaliseIdempotent | suzieq/engines/pandas/routes.py:119-129 | normalising twice is normalising once |
| Routes.CleanRoutes | suzieq/engines/pandas/routes.py:134-136 | the result is the non-loopback rows, in order and with repeats, each with `default` renamed to `0.0.0.0/0`; no row is for `127.0.0.0/8` or named `default` |
| Routes.CleanRoutesIdempotent | suzieq/engines/pandas/routes.py:134-136 | cleaning a cleaned table changes nothing |
| Routes.LengthText | suzieq/engines/pandas/routes.py:141-142 | a length is found exactly when the prefix splits into two parts on `/` |
| Routes.DerivePrefixlen | suzieq/engines/pandas/routes.py:141-143 | `ValueError` exactly when some two-part prefix has a non-integer length; otherwise the result is the two-part rows, in order and with repeats, each with `prefixlen` set to the integer after the `/` |
| Routes.PrefixlenOfWrittenPrefix | suzieq/engines/pandas/routes.py:141-143 | a prefix written as address/length yields that length back |
| Routes.FilterQuery | suzieq/engines/pandas/routes.py:146-151 | a leading `<` or `>` is kept as the operator, a leading `!` becomes `!=` with the rest, and anything else becomes `==` |
| Routes.Filter | suzieq/engines/pandas/routes.py:146-151 | the condition the query expresses: `<`, `<=`, `>`, `>=` from the leading operator and `!=` from a leading `!`, each bounded by the integer after the operator, and otherwise equality to the integer written; text outside that grammar gives no condition |
| Routes.FilterRender | suzieq/engines/pandas/routes.py:146-151 | every condition written in the user's syntax reads back as itself |
| Routes.SelectPrefixlen | suzieq/engines/pandas/routes.py:145-154 | a filter outside the modelled grammar is an error; otherwise the result is the rows whose length the condition admits, in order and with repeats |
| Routes.NumNexthops | suzieq/engines/pandas/routes.py:159-164 | the count is the larger of the two next-hop list lengths |
| Routes.Request | suzieq/engines/pandas/routes.py:60-62 | the request keeps the caller's extra fields first; every field it adds is on the drop list whatever rows come back; `prefixlen` is added exactly when a filter is given and the guard of line 113 holds; the prefixes and version are the normalised ones |
| Routes.Prepared | suzieq/engines/pandas/routes.py:134-143 | `ValueError` exactly when the length is derived and some cleaned two-part prefix has a non-integer length; otherwise the cleaned rows, with lengths derived exactly when a filter is given, `prefixlen` is requested or all columns are |
| Routes.Filtered | suzieq/engines/pandas/routes.py:134-154 | an error exactly when preparing fails or a given filter is outside the modelled grammar; otherwise the prepared rows, restricted to those the filter admits when one is given |
| Routes.Get | suzieq/engines/pandas/routes.py:111-164 | only a frame with rows and a `prefix` column is cleaned, given lengths and filtered, and only it can raise; other frames come back unchanged; `numNexthops` is present exactly for a non-empty result when asked for or with `*`, and holds each row's count; the drop list is `DropColumns` for whether such prefix rows came back |
| Routes.GetKeepsRequestedPrefixlen | suzieq/engines/pandas/routes.py:111-164 | with the corrected guard, a requested `prefixlen` column is never dropped, and every returned prefix row carries the length written after its `/`; a frame without prefix rows comes back unchanged |
| Routes.DottedQuadValue | suzieq/engines/pandas/routes.py:273-276 | for octets below 256 the hex concatenation is the 32-bit value of the dotted quad |
| Routes.NetworkValueOfDottedQuad | suzieq/engines/pandas/routes.py:273-276 | a dotted quad written with a length gives its 32-bit value back |
| Routes.Mask32 | suzieq/engines/pandas/routes.py:277-278 | a length above 32 raises; the mask is 0 for a length of 0 or less, and all ones for 32 |
| Routes.MaskOf | suzieq/engines/pandas/routes.py:277-278 | a row has a mask exactly when it has a length of at most 32 |
| Routes.Lpm4 | suzieq/engines/pandas/routes.py:265-282 | an error exactly when some row lacks a network value or mask; otherwise the matching rows, one per (namespace, hostname, vrf), in descending length, each as long as every match of its key |
| Routes.FirstLongest | suzieq/engines/pandas/routes.py:284-292 | for every key with a hit above the floor, exactly one selected candidate: the first of its longest hits; no key twice; keys in the order of their first hit above the floor, as the dictionary keeps them |
| Routes.FirstHitChosen | suzieq/engines/pandas/routes.py:286-292 | a key enters the selection exactly when it has a hit above the floor |
| Routes.ChosenIsFirstLongest | suzieq/engines/pandas/routes.py:286-292 | the running maximum's last winner is the first of the longest hits of its key above the floor, and one exists exactly when some hit is above the floor |
| Routes.Lpm6 | suzieq/engines/pandas/routes.py:261-299 | an error exactly when some prefix does not parse, or when the table has rows but no network above the floor contains the address (`KeyError` on the empty frame); otherwise, for every key, the first of its longest containing networks above the floor, with no key twice, keys in order of first selection |
| Routes.Select6 | suzieq/engines/pandas/routes.py:284-299 | `KeyError` exactly when the table has rows and no candidate is a hit above the floor; otherwise the selected rows in order of first selection, one per key |
| Routes.KeyTextCollides | suzieq/engines/pandas/routes.py:289 | rows of different namespace and hostname can share a dash-joined key |
| Routes.DefaultRouteSkipped | suzieq/engines/pandas/routes.py:285-290 | a `::/0` route holding the address is never chosen with the floor 0, and is chosen without a floor; as the only candidate it leaves nothing selected as written, so a non-empty table raises `KeyError` |
| InventorySource.FormatKeys | suzieq/poller/controller/source/base_source.py:27-37 | the format keys are the required keys and the two credentials |
| InventorySource.MissingKeys | suzieq/poller/controller/source/base_source.py:148-167 | the report names exactly the missing required keys, plus the either-credential entry when both credentials are missing; it is empty exactly when the device is valid |
| InventorySource.EitherCredentialLast | suzieq/poller/controller/source/base_source.py:153-158 | the either-credential entry ends the report exactly when both credentials are missing |
| InventorySource.CredentialsNeverReported | suzieq/poller/controller/source/base_source.py:160-164 | a single credential is never reported |
| InventorySource.IsInvalidInventory | suzieq/poller/controller/source/base_source.py:147-169 | empty exactly when every device is valid; otherwise the report of the first invalid device |
| InventorySource.SetInventory | suzieq/poller/controller/source/base_source.py:116-131 | `ValueError` exactly when some device is invalid, and then the source is unchanged; otherwise the inventory is stored and marked set |
| InventorySource.GetInventory | suzieq/poller/controller/source/base_source.py:77-96 | a negative timeout raises `ValueError`; before any set the wait times out; otherwise the stored inventory |
| InventorySource.SetThenGet | suzieq/poller/controller/source/base_source.py:116-131 | after a valid set, reading gives back the same list |
| InventorySource.RejectedSetKeepsInventory | suzieq/poller/controller/source/base_source.py:116-118 | a rejected set does not change what is read |
| InventorySource.CheckItems | suzieq/poller/controller/source/base_source.py:302-318 | a section passes exactly when every item has a truthy, unused name, is a dictionary, and has a truthy `copy` only if it names a known item; else the error is that of the first failing item, every earlier item passing |
| InventorySource.CheckSection | suzieq/poller/controller/source/base_source.py:296-301 | a falsy section is skipped; any other passes exactly when it is a list of valid items |
| InventorySource.CheckNamespaces | suzieq/poller/controller/source/base_source.py:320-335 | the namespaces pass exactly when each has a source naming a source, and a device and auth, when given, naming defined items; else the error is that of the first failing entry |
| InventorySource.ValidateRawInventory | suzieq/poller/controller/source/base_source.py:282-335 | an empty inventory and one without `sources` or `namespaces` raise; otherwise it passes exactly when every section and namespace entry is valid |
| InventorySource.Step | suzieq/poller/controller/source/base_source.py:358-369 | an unnamed item adds nothing; a named one is stored as it is, or as the copied configuration overridden by its keys except `copy`; copying an unknown name raises `KeyError` |
| InventorySource.GetInventoryConfig | suzieq/poller/controller/source/base_source.py:351-371 | a missing or falsy section gives no configurations; a list gives those of its items in order |
| InventorySource.ConfigsKeys | suzieq/poller/controller/source/base_source.py:357-369 | the resolved configurations are keyed exactly by the named items |
| InventorySource.ConfigsResolve | suzieq/poller/controller/source/base_source.py:357-369 | with distinct names, each named item's configuration is itself, or the one it copies overridden by its own keys except `copy` |
| InventorySource.SelfCopyAccepted | suzieq/poller/controller/source/base_source.py:307-316 | as written, a source copying itself passes validation |
| InventorySource.SelfCopyRaises | suzieq/poller/controller/source/base_source.py:364 | resolving that inventory then raises `KeyError` |
| InventorySource.SelfCopyRejected | suzieq/poller/controller/source/base_source.py:307-316 | corrected, the self-copy is rejected |
| InventorySource.ValidatedConfigsResolve | suzieq/poller/controller/source/base_source.py:282-371 | after the corrected check, resolving any section never misses a copied configuration |
| InventorySource.AcceptedSectionsDefine | suzieq/poller/controller/source/base_source.py:282-371 | in an accepted inventory every section that resolves gives each item its own dictionary, or the one it copies overridden by its keys |
| CredentialLoader.ValidateCredentials | suzieq/poller/controller/credential_loader/base_credential_loader.py:57-80 | `RuntimeError` exactly when a key is outside the format; as written the report is `['username']` or `[]`; corrected it also names the missing secret, and is empty exactly when a username and a secret are given |
| CredentialLoader.WriteCredentials | suzieq/poller/controller/credential_loader/base_credential_loader.py:41-55 | an error exactly on an unexpected or missing key; on success the device gains exactly the credential keys with their values and keeps every other key |
| CredentialLoader.WrittenDeviceValid | suzieq/poller/controller/credential_loader/base_credential_loader.py:41-80 | corrected, a device with every other inventory key that accepts credentials passes the inventory key check |
| CredentialLoader.NoSecretAccepted | suzieq/poller/controller/credential_loader/base_credential_loader.py:67 | as written, a username alone is accepted, and the device it yields fails the inventory key check |
| CredentialLoader.NoSecretReported | suzieq/poller/controller/credential_loader/base_credential_loader.py:67-72 | corrected, a username alone is reported as lacking a password or key file |
| CredFile.FirstWithId | suzieq/poller/controller/credential_loader/cred_file.py:51-55 | the position of the first device with the id, or none exactly when no device has it |
| CredFile.Prepare | suzieq/poller/controller/credential_loader/cred_file.py:63-69 | succeeds exactly for non-empty credentials holding `keyfile`; the result renames `keyfile` to `ssh_keyfile`, adds `options` and keeps the other keys |
| CredFile.Consume | suzieq/poller/controller/credential_loader/cred_file.py:63-69 | the entry changes exactly when its credentials are accepted, and then it keeps its keys but holds credentials that the same lines reject with `KeyError: 'keyfile'` |
| CredFile.LoadDevice | suzieq/poller/controller/credential_loader/cred_file.py:46-71 | success needs a named entry whose first matching device is in the namespace, and then only that device gains the credentials; credentials the lines reject give their error; as written every entry fails, and the file's entry is consumed exactly when it matches its device, while corrected the file is untouched |
| CredFile.ConsumedEntryRaises | suzieq/poller/controller/credential_loader/cred_file.py:63-66 | an entry consumed by a load raises `KeyError: 'keyfile'` when loaded again, whichever variant loads it |
| CredFile.LoadNamespaces | suzieq/poller/controller/credential_loader/cred_file.py:36-71 | success needs every namespace entry to have a name and devices; devices keep their other keys; as written only an empty list succeeds; the file keeps its namespaces, each unchanged or with its device entries consumed in place, and corrected it is untouched |
| CredFile.Load | suzieq/poller/controller/credential_loader/cred_file.py:25-82 | an empty inventory raises first and leaves the file alone, then a file that is not a list; on success every device has a username and keeps its other keys; the file after the load has the same namespaces, each unchanged or consumed, and corrected it is the file as read |
| CredFile.AsWrittenLoadsNothing | suzieq/poller/controller/credential_loader/cred_file.py:69-71 | as written, a load succeeds only for an empty file, and then changes nothing |
| CredFile.OptionsRejected | suzieq/poller/controller/credential_loader/cred_file.py:69-71 | as written, a well-formed one-device file is rejected |
| CredFile.OptionsAccepted | suzieq/poller/controller/credential_loader/cred_file.py:25-82 | corrected, the same file loads and the device gains the username and key file |
| CredFile.SecondLoadRaises | suzieq/poller/controller/credential_loader/cred_file.py:63-71 | as written, the first load of the one-device file changes the file, and loading it again raises `KeyError: 'keyfile'` even with `options` accepted; corrected, the file is unchanged and loads again |
| Netbox.ValidateConfig | suzieq/poller/controller/source/netbox.py:91-104 | one error for each falsy field among token, url and auth, in that order; empty exactly when all three are truthy |
| Netbox.DefaultPort | suzieq/poller/controller/source/netbox.py:19 | a default port exists exactly for `http` and `https` |
| Netbox.PortOf | suzieq/poller/controller/source/netbox.py:77 | an invalid port raises `ValueError`; a non-zero port is kept; otherwise the scheme's default |
| Netbox.Load | suzieq/poller/controller/source/netbox.py:55-89 | an empty configuration and a missing url raise `ValueError`; on success the scheme defaults to `http`, the port to the scheme's, and tag, namespace, period and run-once to `"null"`, `"site.name"`, 3600 and false |
| Netbox.Walk | suzieq/poller/controller/source/netbox.py:168-178 | a walk only fails with `AttributeError` |
| Netbox.WalkAppend | suzieq/poller/controller/source/netbox.py:168-178 | walking two paths in turn is walking the joined path: it stops where the first stops, and otherwise continues from where it ended |
| Netbox.DottedPath | suzieq/poller/controller/source/netbox.py:168-178 | the value at `p.q` is the value at `q` of the value at `p` |
| Netbox.Record | suzieq/poller/controller/source/netbox.py:185-217 | succeeds exactly for a dictionary with a hashable name, readable address paths and a dictionary device config; `id` is the name, `address` the truthy ipv4 or else the truthy ipv6 or absent, `port` 22, `transport` the configured one or `ssh`, and the namespace `""` for `site.name` |
| Netbox.ParseInventory | suzieq/poller/controller/source/netbox.py:158-219 | succeeds exactly when the rows and every device record succeed |
| Netbox.ParseIds | suzieq/poller/controller/source/netbox.py:186-190 | each record's `id` is the name it is stored under |
| Netbox.ParseOnePerName | suzieq/poller/controller/source/netbox.py:185-186 | no two records share an `id` |
| Netbox.ParseCoversNames | suzieq/poller/controller/source/netbox.py:185-186 | every device name has a record |
| Netbox.ParseLastWins | suzieq/poller/controller/source/netbox.py:185-210 | each record is the one built from the last device with its name |
| Netbox.ParseFirstSeenOrder | suzieq/poller/controller/source/netbox.py:185-219 | records are in the order their names first appear |
| InventoryWriter.Project | suzieq/poller/controller/utils/inventory_writer.py:56-62 | a device projects exactly when it is a dictionary with namespace, address and port, to exactly those three values; else `TypeError` or `KeyError` |
| InventoryWriter.GetDiff | suzieq/poller/controller/utils/inventory_writer.py:108-111 | additions are exactly the new rows not previously present, deletions exactly the previous rows no longer present; both are empty exactly when the two hold the same rows |
| InventoryWriter.WithoutAppend | suzieq/poller/controller/utils/inventory_writer.py:108-111 | the difference keeps the order of its input |
| InventoryWriter.Batch | suzieq/poller/controller/utils/inventory_writer.py:66-82 | additions then deletions, all with the same version and time stamp, active exactly for the additions |
| InventoryWriter.Write | suzieq/poller/controller/utils/inventory_writer.py:46-83 | the previous inventory is read once; an error exactly when some device does not project; with no change nothing is written and the state stays; otherwise the batch is written and the new inventory remembered, with the added rows annotated as written |
| InventoryWriter.AsWrittenRewrites | suzieq/poller/controller/utils/inventory_writer.py:68-83 | as written, after a write that adds rows, writing the same devices again writes a non-empty batch |
| InventoryWriter.FixedIdempotent | suzieq/poller/controller/utils/inventory_writer.py:46-83 | corrected, writing the same devices again writes nothing and keeps the state |
| Status.ValueIdentifiesMember | suzieq/shared/status.py:27-37 | looking up a member's value finds that member, so no two members share a value |
| Status.FromValue | suzieq/shared/status.py:27-37 | a member exists exactly for the values -1 to 7 |
| Status.Members | suzieq/shared/status.py:29-37 | nine members in declaration order, valued 0 to 7 and then -1 |
| Status.PrettyPrintLines | suzieq/shared/status.py:19-24 | the text splits into the header "The <name> values are:" followed by one "<value> <name>" line per member, in order |

## Left out

- Streamlit widgets, `st.stop`, query parameter get/set, the cache and the `PathObj` query of `path_get` are left out. The hop table and the trace answer are inputs.
- Graphviz rendering is left out. The graph is a datatype of nodes, rank groups and edges. The edge tooltip is a record, not pandas' `to_string` layout.
- `urllib.parse.quote` is a function parameter. Percent-encoding is not modelled.
- In `routes.py`, these are left out: the `origin` branch with its merges against other tables, `summarize`, `aver`, and the user query. `super().get` is the parameter `fetch` of `Routes.Get`, and `lpm`'s own fetch is left out: its rows are an input.
- `_get_ipvers` and `ipaddress` parsing are not modelled. The version of a prefix is a function parameter (`VersionOf`). The IPv6 network of a row comes from a parameter (`ParseNet6`). The address is a bitvector, so the version dispatch of `lpm` is two members, `Lpm4` and `Lpm6`.
- Routes.Filter: the modelled grammar is an optional operator (`<`, `<=`, `>`, `>=`, `!`) followed by a decimal integer as `Strings.ParseInt` reads it. pandas' expression parser is not modelled. It also evaluates spaces and floats, as in `< 24` or `24.5`. It rejects leading zeros such as `024`, which the model accepts.
- Routes.SelectPrefixlen: the error case is a filter outside the modelled grammar of `Routes.Filter`, not exactly a filter pandas fails to evaluate. The reason is the same.
- Routes.Lpm4: the order among rows of equal length is not stated. pandas' sort is not stable by default. The contract leaves the order of ties free.
- Routes.DerivePrefixlen: a length is read by `Strings.ParseInt`, an optional sign and decimal digits. Python's `astype('int')` also accepts surrounding whitespace and `_` between digits, as in `" 24"` or `"2_4"`. The model raises `ValueError` for those.
- Routes.Octets: a negative octet raises `ValueError` in the model. In the source, a negative first octet such as in `-1.0.0.0/8` prints as `-1` through `'%02x'`, and `int('-1000000', 16)` then succeeds with a negative value. A negative later octet puts a `-` inside the hex text and raises as modelled. Octets are also read by `Strings.ParseInt`, so whitespace and `_` differ as for `Routes.DerivePrefixlen`.
- Routes.Get: the `origin` branch and the user query are not part of it. The storage engine's `get` is the parameter `fetch`, and only its rows and whether they have a `prefix` column are modelled.
- Routes.Mask32: the contract states the mask only for lengths of 0 or less, 32, and above 32. The body computes the shifted mask for every length.
- InventorySource.MissingKeys: the source returns `list(set)`, whose order Python does not fix. The model lists the keys in format order, and the contract states only membership and the position of the either-credential entry.
- Semaphores, threads and timeouts of `get_inventory`/`set_inventory` are left out. Only the sequential behaviour is modelled. A non-negative timeout on an unset source is modelled as the wait expiring.
- `_load_inventory` (file and YAML reading) and `init_plugins` are left out.
- `CredFile.init` (file reading) is left out. The parsed file is a parameter.
- `CredFile.Load`: one credentials mapping shared by two entries of the file (a YAML alias) is not modelled; each entry's credentials are a value of its own. The caller passes the file a previous load left behind.
- Netbox's `retrieve_rest_data`, the session, the token header, `run` and `stop` are left out. The server answer is an input.
- `urlparse` is a function parameter that yields a parsed-URL record.
- `InventoryWriter._read_inventory` and `_write_inventory` are left out. The stored rows, the clock and the schema version are parameters, and the batch is returned.
- Python's cross-type equality is not modelled: `1 == True` is false here. Values are compared structurally.
- Exception messages are reduced to their constant parts. Interpolated names are not carried.
- The asyncssh exception tuples in `status.py` are left out.

## Findings

| source | as written | input that shows it | evidently intended | confidence | as-written member | corrected member |
|---|---|---|---|---|---|---|
| suzieq/gui/pages/gui_path.py:212-218 | only `run` is converted from the URL; `show_ifnames` stays the text `"False"`, which is truthy, so the next run's untouched check box turns interface names on | a state with interface names off, written to the URL and restored | convert `show_ifnames` like `run`, so a state survives its own link | high (not executed) | PathPage.NextRunShowsIfnamesAsWritten | PathPage.RestoreLinkRoundTrip |
| suzieq/engines/pandas/routes.py:113 | `'prefixlen' not in columns or columns != ['*']` holds for every column list but `['*']` with `prefixlen` | columns `prefix, prefixlen` with filter `24`: `prefixlen` is dropped | drop `prefixlen` only when it was not requested | medium (not executed) | Routes.RequestedPrefixlenDropped | Routes.DropColumns |
| suzieq/engines/pandas/routes.py:285-290 | the IPv6 running maximum starts at 0 and must be beaten strictly | an address covered only by `::/0`, with no other key selected, raises `KeyError` on the empty frame; with another key selected, its key gets no route | a default route is a match, as section 5.2.4.3 of RFC 1812 treats it | medium (not executed) | Routes.DefaultRouteSkipped | Routes.Lpm6 |
| suzieq/poller/controller/source/base_source.py:309-316 | the item's name is registered before its `copy` is checked, so an item may copy itself | a source `{name: a, copy: a}` passes, then resolving it raises `KeyError` | a `copy` names an earlier item | high (not executed) | InventorySource.SelfCopyAccepted | InventorySource.ValidatedConfigsResolve |
| suzieq/poller/controller/credential_loader/base_credential_loader.py:67 | the test asks for `'keyfile'`, never in the set, so a missing secret is not reported | credentials holding only `username` | test `'ssh_keyfile'` and report "password or ssh_keyfile" | high (not executed) | CredentialLoader.NoSecretAccepted | CredentialLoader.NoSecretReported |
| suzieq/poller/controller/credential_loader/cred_file.py:69-71 | `options` is added, and the base check rejects it as unexpected | any well-formed credentials file with one device entry | accept `options` | high (not executed) | CredFile.OptionsRejected | CredFile.OptionsAccepted |
| suzieq/poller/controller/credential_loader/cred_file.py:63-67 | the credentials are renamed in place in the parsed file, so its `keyfile` is gone after the first load | the one-device file loaded twice, as a source does on every poll | rename on a copy of the credentials | medium (not executed) | CredFile.SecondLoadRaises | CredFile.Load |
| suzieq/poller/controller/utils/inventory_writer.py:68-83 | added rows are annotated in place, and the annotated copies are remembered as the previous inventory | two writes of the same devices, the first adding a row: the second writes a batch | remember the plain projected rows, so an unchanged inventory writes nothing | high (not executed) | InventoryWriter.AsWrittenRewrites | InventoryWriter.FixedIdempotent |
