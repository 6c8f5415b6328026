/** The base of the credential loaders
    (suzieq/poller/controller/credential_loader/base_credential_loader.py):
    the check of a device's credentials against the credential format and
    the merge of accepted credentials into the device.

  Two defects of the source are modelled as written and, behind the flag
  `fixed`, as evidently intended:
  - the test for "neither credential" asks for `'keyfile'`, which is never
    in the set of format keys, so that report never fires;
  - the file loader adds an `options` key which the format check rejects as
    unexpected; the corrected check accepts it as an optional key.
 */
module CredentialLoader {

  import opened Outcomes
  import opened PyValues
  import InventorySource

  /** `_cred_format` (lines 17-21). */
  const CredFormat: set<string> := {"username", "password", "ssh_keyfile"}

  /** The keys a credential dictionary may carry. */
  function Allowed(fixed: bool): set<string> {
    if fixed then CredFormat + {"options"} else CredFormat
  }

  /** A username and at least one of password and key file. */
  predicate CredentialsComplete(creds: Dict) {
    "username" in creds && ("password" in creds || "ssh_keyfile" in creds)
  }

  /** `list(s)` of a set of at most one format key. */
  function AsList(s: set<string>): (r: seq<string>)
    requires s <= {"username"}
    ensures forall x :: x in r <==> x in s
    ensures |r| <= 1
  {
    if "username" in s then ["username"] else []
  }

  /** `_validate_credentials` (lines 57-80). A key outside the format raises
      `RuntimeError`. Otherwise the format keys the credentials lack are
      reported, password and key file removed; with the correction the
      neither-credential entry is appended when both are missing. As
      written, the missing-key report is only ever about the username. */
  function ValidateCredentials(creds: Dict, fixed: bool): (r: Result<seq<string>>)
    ensures r.Err? <==> exists k :: k in creds && k !in Allowed(fixed)
    ensures r.Err? ==> r.error.exc == RuntimeError
    ensures r.Ok? && !fixed ==> r.value == (if "username" in creds then [] else ["username"])
    ensures r.Ok? && fixed ==>
              forall x :: x in r.value <==>
                || (x == "username" && "username" !in creds)
                || (x == InventorySource.EitherCredential && "password" !in creds && "ssh_keyfile" !in creds)
    ensures r.Ok? && fixed ==> (r.value == [] <==> CredentialsComplete(creds))
  {
    if exists k :: k in creds && k !in Allowed(fixed) then
      Err(Error(RuntimeError, "Unexpected key in credentials"))
    else
      var left := CredFormat - creds.Keys;
      var rest := left - {"password", "ssh_keyfile"};
      var other := if fixed then "ssh_keyfile" else "keyfile";
      if "password" in left && other in left then
        Ok(AsList(rest) + [InventorySource.EitherCredential])
      else
        Ok(AsList(rest))
  }

  /** `write_credentials` (lines 41-55): credentials with a missing key
      raise `ValueError` and leave the device as it was; accepted ones are
      merged into the device, overwriting the keys they carry and keeping
      every other key. */
  function WriteCredentials(device: Dict, creds: Dict, fixed: bool): (r: Result<Dict>)
    ensures r.Err? <==>
              || (exists k :: k in creds && k !in Allowed(fixed))
              || "username" !in creds
              || (fixed && "password" !in creds && "ssh_keyfile" !in creds)
    ensures r.Err? && (forall k :: k in creds ==> k in Allowed(fixed)) ==> r.error.exc == ValueError
    ensures r.Ok? ==> r.value.Keys == device.Keys + creds.Keys
    ensures r.Ok? ==> forall k :: k in creds ==> r.value[k] == creds[k]
    ensures r.Ok? ==> forall k :: k in device && k !in creds ==> r.value[k] == device[k]
  {
    var missing :- ValidateCredentials(creds, fixed);
    if missing != [] then
      assert missing[0] in missing;
      Err(Error(ValueError, "Invalid credentials: missing keys"))
    else
      Ok(device + creds)
  }

  /** With the correction, a device that has every other inventory key and
      accepts credentials passes the inventory's required-keys check. */
  lemma WrittenDeviceValid(device: Dict, creds: Dict)
    requires forall k :: k in InventorySource.Required && k != "username" ==> k in device
    requires WriteCredentials(device, creds, true).Ok?
    ensures InventorySource.DeviceValid(WriteCredentials(device, creds, true).value)
  {
  }

  /** A device given a username alone. */
  function UsernameOnly(): Dict {
    map["username" := VStr("admin")]
  }

  /** A device with every inventory key but the credentials. */
  function BareDevice(): Dict {
    map["id" := VStr("r1"), "address" := VStr("10.0.0.1"), "namespace" := VStr("lab"),
        "port" := VInt(22), "transport" := VStr("ssh"), "devtype" := VStr("eos")]
  }

  /** As written, a username without password or key file is accepted, and
      the device it produces fails the inventory's required-keys check. */
  lemma NoSecretAccepted()
    ensures ValidateCredentials(UsernameOnly(), false) == Ok([])
    ensures WriteCredentials(BareDevice(), UsernameOnly(), false).Ok?
    ensures !InventorySource.DeviceValid(WriteCredentials(BareDevice(), UsernameOnly(), false).value)
  {
    var d := WriteCredentials(BareDevice(), UsernameOnly(), false).value;
    assert "password" !in d && "ssh_keyfile" !in d;
  }

  /** With the correction, the same credentials are reported as lacking
      either secret. */
  lemma NoSecretReported()
    ensures ValidateCredentials(UsernameOnly(), true) == Ok([InventorySource.EitherCredential])
    ensures WriteCredentials(BareDevice(), UsernameOnly(), true).Err?
  {
    assert UsernameOnly().Keys == {"username"};
    assert forall k :: k in UsernameOnly() ==> k in Allowed(true);
    var left := CredFormat - UsernameOnly().Keys;
    assert "password" in left && "ssh_keyfile" in left;
    assert AsList(left - {"password", "ssh_keyfile"}) == [];
    var r := ValidateCredentials(UsernameOnly(), true);
    assert r.Ok?;
    assert r.value == AsList(left - {"password", "ssh_keyfile"}) + [InventorySource.EitherCredential];
    assert r.value == [InventorySource.EitherCredential];
  }
}
