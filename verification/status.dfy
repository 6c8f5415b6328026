/** The return status of the poller services (suzieq/shared/status.py) and the
    enum pretty-printer used to list an enum's values.
 */
module Status {

  import Strings
  import Outcomes

  /** `ServiceStatus`, in declaration order. */
  datatype ServiceStatus =
    | Ok
    | CommandTimeout
    | CommandError
    | AuthnError
    | AuthzError
    | Connection
    | UndefinedService
    | EmptyResponse
    | Unknown
  {
    /** The member's integer value. */
    function Value(): (v: int)
      ensures -1 <= v <= 7
      ensures v == -1 <==> this == Unknown
    {
      match this
      case Ok => 0
      case CommandTimeout => 1
      case CommandError => 2
      case AuthnError => 3
      case AuthzError => 4
      case Connection => 5
      case UndefinedService => 6
      case EmptyResponse => 7
      case Unknown => -1
    }

    /** The member's Python name. */
    function Name(): string {
      match this
      case Ok => "OK"
      case CommandTimeout => "COMMAND_TIMEOUT"
      case CommandError => "COMMAND_ERROR"
      case AuthnError => "AUTHN_ERROR"
      case AuthzError => "AUTHZ_ERROR"
      case Connection => "CONNECTION"
      case UndefinedService => "UNDEFINED_SERVICE"
      case EmptyResponse => "EMPTY_RESPONSE"
      case Unknown => "UNKNOWN"
    }
  }

  /** `ServiceStatus(v)`: the member with value `v`, if any. */
  function FromValue(v: int): (r: Outcomes.Option<ServiceStatus>)
    ensures r.Some? <==> -1 <= v <= 7
  {
    if v == -1 then Outcomes.Some(Unknown)
    else if v == 0 then Outcomes.Some(Ok)
    else if v == 1 then Outcomes.Some(CommandTimeout)
    else if v == 2 then Outcomes.Some(CommandError)
    else if v == 3 then Outcomes.Some(AuthnError)
    else if v == 4 then Outcomes.Some(AuthzError)
    else if v == 5 then Outcomes.Some(Connection)
    else if v == 6 then Outcomes.Some(UndefinedService)
    else if v == 7 then Outcomes.Some(EmptyResponse)
    else Outcomes.None
  }

  /** Looking a member up by its value finds it again, so no two members share
      a value. */
  lemma ValueIdentifiesMember(s: ServiceStatus, t: ServiceStatus)
    ensures FromValue(s.Value()) == Outcomes.Some(s)
    ensures s.Value() == t.Value() ==> s == t
  {
    match s
    case Ok =>
    case CommandTimeout =>
    case CommandError =>
    case AuthnError =>
    case AuthzError =>
    case Connection =>
    case UndefinedService =>
    case EmptyResponse =>
    case Unknown =>
  }

  /** The members in declaration order (iterating the enum class). */
  function Members(): (ms: seq<ServiceStatus>)
    ensures |ms| == 9
    ensures forall i :: 0 <= i < |ms| ==> ms[i].Value() == (if i == 8 then -1 else i)
  {
    [Ok, CommandTimeout, CommandError, AuthnError, AuthzError, Connection,
     UndefinedService, EmptyResponse, Unknown]
  }

  /** One enum member as the pretty-printer sees it: value and name. */
  datatype Member = Member(value: int, name: string)

  function AsMembers(ms: seq<ServiceStatus>): (r: seq<Member>)
    ensures |r| == |ms|
    ensures forall i :: 0 <= i < |ms| ==> r[i] == Member(ms[i].Value(), ms[i].Name())
  {
    if |ms| == 0 then [] else [Member(ms[0].Value(), ms[0].Name())] + AsMembers(ms[1..])
  }

  /** The lines `PrettyPrintEnum.__str__` joins: a header, then one
      "<value> <name>" line per member. */
  function PrettyLines(enumName: string, members: seq<Member>): (lines: seq<string>)
    ensures |lines| == |members| + 1
  {
    ["The " + enumName + " values are:"] + MemberLines(members)
  }

  function MemberLines(members: seq<Member>): (lines: seq<string>)
    ensures |lines| == |members|
    ensures forall i :: 0 <= i < |members| ==>
              lines[i] == Strings.IntToString(members[i].value) + " " + members[i].name
  {
    if |members| == 0 then []
    else [Strings.IntToString(members[0].value) + " " + members[0].name] + MemberLines(members[1..])
  }

  /** `str(cls)` for an enum class using `PrettyPrintEnum`. */
  function PrettyPrint(enumName: string, members: seq<Member>): string {
    Strings.Join(PrettyLines(enumName, members), "\n")
  }

  /** `str(ServiceStatus)`. */
  function ServiceStatusText(): string {
    PrettyPrint("ServiceStatus", AsMembers(Members()))
  }

  lemma IntToStringHasNoNewline(i: int)
    ensures '\n' !in Strings.IntToString(i)
  {
    var t := Strings.NatToString(if i < 0 then -i else i);
    assert forall k :: 0 <= k < |t| ==> t[k] != '\n';
    if i < 0 {
      assert Strings.IntToString(i) == "-" + t;
    }
  }

  lemma NameHasNoNewline(s: ServiceStatus)
    ensures '\n' !in s.Name()
  {
    match s
    case Ok =>
    case CommandTimeout =>
    case CommandError =>
    case AuthnError =>
    case AuthzError =>
    case Connection =>
    case UndefinedService =>
    case EmptyResponse =>
    case Unknown =>
  }

  /** Reading the pretty-printed text back line by line gives the header
      followed by one "<value> <name>" line per member, in order. */
  lemma {:induction false} PrettyPrintLines(enumName: string, members: seq<Member>)
    requires '\n' !in enumName
    requires forall i :: 0 <= i < |members| ==> '\n' !in members[i].name
    ensures var lines := Strings.Split(PrettyPrint(enumName, members), '\n');
            && |lines| == |members| + 1
            && lines[0] == "The " + enumName + " values are:"
            && forall i :: 0 <= i < |members| ==>
                 lines[i + 1] == Strings.IntToString(members[i].value) + " " + members[i].name
  {
    var lines := PrettyLines(enumName, members);
    forall k | 0 <= k < |lines|
      ensures '\n' !in lines[k]
    {
      if k > 0 {
        IntToStringHasNoNewline(members[k - 1].value);
        assert lines[k] == Strings.IntToString(members[k - 1].value) + " " + members[k - 1].name;
      }
    }
    Strings.SplitJoin(lines, '\n');
  }

  /** The member names of `ServiceStatus` are single-line, so
      `PrettyPrintLines` applies to `str(ServiceStatus)`. */
  lemma ServiceStatusNamesSingleLine(ms: seq<ServiceStatus>)
    ensures var members := AsMembers(ms);
            forall i :: 0 <= i < |members| ==> '\n' !in members[i].name
  {
    var members := AsMembers(ms);
    forall i | 0 <= i < |members|
      ensures '\n' !in members[i].name
    {
      NameHasNoNewline(ms[i]);
    }
  }
}
