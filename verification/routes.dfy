/** The route-table logic of the pandas routes engine
    (suzieq/engines/pandas/routes.py): the extra columns a query needs,
    host-prefix normalisation, prefix cleaning and prefix-length derivation,
    the prefix-length filter, the next-hop count and the longest-prefix
    match of section 5.2.4.3 of RFC 1812.

  A route table is a sequence of `Route` rows in table order. Address parsing
  (`ipaddress`) and the engine's `_get_ipvers` are not part of this model:
  the version of a prefix is a function parameter, the longest-prefix match
  takes the address already parsed into a bit-vector, and the IPv6 branch
  takes `ip_network` as a parameter. The IPv4 branch computes its network
  integers from the prefix text as the source does.
 */
module Routes {

  import opened Outcomes
  import Strings
  import Tables

  /** A row of the routes table, restricted to the columns the logic reads. */
  datatype Route = Route(
    namespace: string,
    hostname: string,
    vrf: string,
    prefix: string,
    oifs: seq<string>,
    nexthopIps: seq<string>,
    prefixlen: Option<int>)

  // ---------------------------------------------------------------- columns

  /** `_cons_addnl_fields`: the fields to fetch in addition to the requested
      columns, and the columns to drop again before returning. Whatever is
      added is dropped: the added fields are exactly the drop list, appended
      to the fields already asked for. `metric` is added unless all columns
      (`*`) or an explicit list naming `metric` is requested; `ipvers` is
      added only for an explicit list naming neither. */
  function ConsAddnlFields(columns: seq<string>, addnl: seq<string>): (r: (seq<string>, seq<string>))
    ensures r.0 == addnl + r.1
    ensures "metric" in r.1 <==> columns == ["default"] || (columns != ["*"] && "metric" !in columns)
    ensures "ipvers" in r.1 <==>
              columns != ["default"] && columns != ["*"] && "metric" !in columns && "ipvers" !in columns
    ensures forall c :: c in r.1 ==> c in {"metric", "ipvers"}
    ensures forall i, j :: 0 <= i < j < |r.1| ==> r.1[i] != r.1[j]
  {
    if columns == ["default"] then (addnl + ["metric"], ["metric"])
    else if columns != ["*"] && "metric" !in columns then
      if "ipvers" !in columns then (addnl + ["metric", "ipvers"], ["metric", "ipvers"])
      else (addnl + ["metric"], ["metric"])
    else (addnl, [])
  }

  /** The columns `get` drops before returning, for the non-`origin` query:
      those of `ConsAddnlFields`, then `prefixlen` when a prefix-length
      filter is given and the guard lets it through (line 113), then
      `prefixlen` again when prefix rows were returned and the column was not
      requested (line 156). As written the guard at line 113 is an `or` that
      holds whenever a filter is given (`columns != ['*']` fails only when
      `'prefixlen' not in columns` holds), so a requested `prefixlen` column
      is dropped; `fixed` selects the evidently intended `and`. */
  function DropColumns(columns: seq<string>, prefixlenFilter: string, prefixRows: bool, fixed: bool): (drop: seq<string>)
    ensures var base := ConsAddnlFields(columns, []).1;
            && |base| <= |drop|
            && drop[..|base|] == base
    ensures !fixed && prefixlenFilter != "" ==> "prefixlen" in drop
    ensures !fixed ==> ("prefixlen" in drop <==>
                          prefixlenFilter != "" || (prefixRows && columns != ["*"] && "prefixlen" !in columns))
    ensures fixed ==> ("prefixlen" in drop <==>
                         columns != ["*"] && "prefixlen" !in columns && (prefixlenFilter != "" || prefixRows))
  {
    var base := ConsAddnlFields(columns, []).1;
    var afterFilter := if prefixlenFilter != "" && FilterGuard(columns, fixed) then base + ["prefixlen"] else base;
    if prefixRows && columns != ["*"] && "prefixlen" !in columns then afterFilter + ["prefixlen"] else afterFilter
  }

  /** The guard of line 113: whether a prefix-length filter fetches (and
      later drops) the `prefixlen` column. As written an `or`, corrected an
      `and`. */
  predicate FilterGuard(columns: seq<string>, fixed: bool) {
    if fixed then "prefixlen" !in columns && columns != ["*"]
    else "prefixlen" !in columns || columns != ["*"]
  }

  /** Asking for the `prefixlen` column together with a prefix-length filter
      loses the column: it is on the drop list as written, and not with the
      corrected guard. */
  lemma RequestedPrefixlenDropped()
    ensures "prefixlen" in DropColumns(["prefix", "prefixlen"], "24", true, false)
    ensures "prefixlen" !in DropColumns(["prefix", "prefixlen"], "24", true, true)
  {
    var base := ConsAddnlFields(["prefix", "prefixlen"], []).1;
    assert "prefixlen" !in base;
  }

  // ----------------------------------------------------------- prefix input

  /** The version assigned to an address string (`_get_ipvers`). */
  type VersionOf = string -> int

  /** A prefix given without a length is a host prefix: `/32` for IPv4,
      `/128` otherwise. Empty strings and prefixes with a length stay. */
  function HostPrefix(item: string, vers: int): (p: string)
    ensures item == "" || '/' in item ==> p == item
    ensures item != "" && '/' !in item ==>
              p == item + (if vers == 4 then "/32" else "/128")
  {
    if item != "" && '/' !in item then item + (if vers == 4 then "/32" else "/128") else item
  }

  /** The prefix loop of `get`: each prefix normalised by `HostPrefix`, in
      order; the `ipvers` passed on to the query is overwritten by the version
      of the last prefix, whatever the caller asked for. */
  function NormalisePrefixes(prefix: seq<string>, ipvers: Option<int>, versionOf: VersionOf): (r: (seq<string>, Option<int>))
    ensures |r.0| == |prefix|
    ensures forall i :: 0 <= i < |prefix| ==> r.0[i] == HostPrefix(prefix[i], versionOf(prefix[i]))
    ensures r.1 == (if |prefix| == 0 then ipvers else Some(versionOf(prefix[|prefix| - 1])))
    ensures forall i :: 0 <= i < |prefix| ==> r.0[i] == "" || '/' in r.0[i]
  {
    var items := seq(|prefix|, i requires 0 <= i < |prefix| => HostPrefix(prefix[i], versionOf(prefix[i])));
    (items, if |prefix| == 0 then ipvers else Some(versionOf(prefix[|prefix| - 1])))
  }

  /** Normalising is idempotent: normalised prefixes all carry a length. */
  lemma NormaliseIdempotent(prefix: seq<string>, ipvers: Option<int>, versionOf: VersionOf)
    ensures var once := NormalisePrefixes(prefix, ipvers, versionOf).0;
            NormalisePrefixes(once, ipvers, versionOf).0 == once
  {
  }

  // ------------------------------------------------------------ table rows

  const LoopbackNet := "127.0.0.0/8"

  /** One row after line 136: `default` becomes `0.0.0.0/0`. */
  function RewriteDefault(r: Route): (o: Route)
  {
    if r.prefix == "default" then r.(prefix := "0.0.0.0/0") else r
  }

  /** Whether a row survives line 134. */
  predicate NotLoopback(r: Route) {
    r.prefix != LoopbackNet
  }

  /** Lines 134-136: rows for `127.0.0.0/8` are removed and the prefix
      `default` is renamed, order kept. */
  function CleanRoutes(rows: seq<Route>): (r: seq<Route>)
    ensures r == Tables.Map(Tables.Where(rows, NotLoopback), RewriteDefault)
    ensures |r| <= |rows|
    ensures forall k :: 0 <= k < |r| ==> r[k].prefix != LoopbackNet && r[k].prefix != "default"
    ensures forall x :: x in r <==> exists k :: 0 <= k < |rows| && rows[k].prefix != LoopbackNet && x == RewriteDefault(rows[k])
    decreases |rows|
  {
    if |rows| == 0 then []
    else
      var rest := CleanRoutes(rows[1..]);
      var out := if rows[0].prefix == LoopbackNet then rest else [RewriteDefault(rows[0])] + rest;
      assert out == Tables.Map(Tables.Where(rows, NotLoopback), RewriteDefault) by {
        Tables.MapWhereCons(rows, NotLoopback, RewriteDefault);
      }
      Tables.MapWhereMember(rows, NotLoopback, RewriteDefault);
      out
  }

  /** Cleaning a clean table changes nothing. */
  lemma {:induction false} CleanRoutesIdempotent(rows: seq<Route>)
    ensures CleanRoutes(CleanRoutes(rows)) == CleanRoutes(rows)
    decreases |rows|
  {
    if |rows| > 0 {
      CleanRoutesIdempotent(rows[1..]);
      var rest := CleanRoutes(rows[1..]);
      if rows[0].prefix != LoopbackNet {
        var r := [RewriteDefault(rows[0])] + rest;
        assert r[1..] == rest;
      }
    }
  }

  /** The length part of a prefix: the text after the only `/`, or `None`
      when the prefix does not split into exactly two parts. */
  function LengthText(prefix: string): (t: Option<string>)
    ensures t.Some? <==> |Strings.Split(prefix, '/')| == 2
    ensures t.Some? ==> '/' !in t.value
  {
    var parts := Strings.Split(prefix, '/');
    if |parts| == 2 then Some(parts[1]) else None
  }

  /** Whether a prefix splits into exactly two parts on `/`. */
  predicate HasLength(r: Route) {
    LengthText(r.prefix).Some?
  }

  /** A row with `prefixlen` set from the text after its `/`. */
  function WithPrefixlen(r: Route): Route {
    match LengthText(r.prefix)
    case Some(t) => r.(prefixlen := Strings.ParseInt(t))
    case None => r
  }

  /** Lines 141-143 (and 266-268): rows whose prefix does not split into
      exactly two parts on `/` are dropped, the others get `prefixlen` set to
      the integer after the `/`; one that is not an integer raises
      `ValueError`. */
  function DerivePrefixlen(rows: seq<Route>): (r: Result<seq<Route>>)
    ensures r.Err? <==> exists k :: 0 <= k < |rows| && BadLength(rows[k])
    ensures r.Err? ==> r.error.exc == ValueError
    ensures r.Ok? ==> r.value == Tables.Map(Tables.Where(rows, HasLength), WithPrefixlen)
    ensures r.Ok? ==> |r.value| <= |rows|
    ensures r.Ok? ==> forall k :: 0 <= k < |r.value| ==>
              && r.value[k].prefixlen.Some?
              && LengthText(r.value[k].prefix).Some?
              && r.value[k].prefixlen == Strings.ParseInt(LengthText(r.value[k].prefix).value)
    ensures r.Ok? ==> forall x :: x in r.value <==>
              exists k :: 0 <= k < |rows| && HasLength(rows[k]) && x == WithPrefixlen(rows[k])
    decreases |rows|
  {
    if |rows| == 0 then Ok([])
    else
      var t := LengthText(rows[0].prefix);
      var rest := DerivePrefixlen(rows[1..]);
      BadLengthStep(rows);
      if BadLength(rows[0]) then Err(Error(ValueError, "invalid literal for int() with base 10"))
      else if rest.Err? then rest
      else
        var out := (if HasLength(rows[0]) then [WithPrefixlen(rows[0])] else []) + rest.value;
        Tables.MapWhereCons(rows, HasLength, WithPrefixlen);
        Tables.MapWhereMember(rows, HasLength, WithPrefixlen);
        Ok(out)
  }

  /** A row whose prefix has a length part that is not an integer. */
  predicate BadLength(r: Route) {
    LengthText(r.prefix).Some? && Strings.ParseInt(LengthText(r.prefix).value).None?
  }

  lemma BadLengthStep(rows: seq<Route>)
    requires |rows| > 0
    ensures (exists k :: 0 <= k < |rows| && BadLength(rows[k])) <==>
              BadLength(rows[0]) || exists k :: 0 <= k < |rows[1..]| && BadLength(rows[1..][k])
  {
    assert forall k :: 1 <= k < |rows| ==> rows[k] == rows[1..][k - 1];
  }

  /** A prefix written as `<address>/<length>` yields that length back. */
  lemma PrefixlenOfWrittenPrefix(address: string, len: int)
    requires '/' !in address
    ensures LengthText(address + "/" + Strings.IntToString(len)) == Some(Strings.IntToString(len))
    ensures Strings.ParseInt(Strings.IntToString(len)) == Some(len)
  {
    var lt := Strings.IntToString(len);
    assert '/' !in lt by {
      assert Strings.AllDigits(lt) || (lt[0] == '-' && Strings.AllDigits(lt[1..]));
    }
    assert Strings.Join([address, lt], "/") == address + "/" + lt;
    Strings.SplitJoin([address, lt], '/');
    Strings.ParseIntToString(len);
  }

  // ------------------------------------------------------ prefix-length filter

  datatype Cmp = Lt | Le | Gt | Ge | Eq | Ne

  /** A prefix-length condition: `prefixlen <cmp> bound`. */
  datatype LenFilter = LenFilter(cmp: Cmp, bound: int)

  /** The query text `get` builds from the user's prefix-length filter. */
  function FilterQuery(p: string): (q: string)
    ensures Strings.StartsWith(q, "prefixlen ")
    ensures Strings.StartsWith(p, "<") || Strings.StartsWith(p, ">") ==> q == "prefixlen " + p
    ensures !Strings.StartsWith(p, "<") && !Strings.StartsWith(p, ">") && Strings.StartsWith(p, "!") ==>
              q == "prefixlen != " + p[1..]
    ensures !Strings.StartsWith(p, "<") && !Strings.StartsWith(p, ">") && !Strings.StartsWith(p, "!") ==>
              q == "prefixlen == " + p
  {
    if Strings.StartsWith(p, "<") || Strings.StartsWith(p, ">") then "prefixlen " + p
    else if Strings.StartsWith(p, "!") then "prefixlen != " + p[1..]
    else "prefixlen == " + p
  }

  /** The condition `FilterQuery(p)` expresses, or `None` when it falls
      outside the modelled grammar: a leading `<` or `>` (possibly followed
      by `=`) compares, a leading `!` means "not equal", anything else means
      "equal"; the rest must be an integer as `Strings.ParseInt` reads it. */
  function Filter(p: string): (f: Option<LenFilter>)
    ensures f.Some? && f.value.cmp in {Lt, Le, Gt, Ge} ==> Strings.StartsWith(p, "<") || Strings.StartsWith(p, ">")
    ensures f.Some? && f.value.cmp == Ne ==> Strings.StartsWith(p, "!")
    ensures f.Some? && f.value.cmp == Eq ==> Strings.ParseInt(p) == Some(f.value.bound)
    ensures f.Some? && f.value.cmp in {Lt, Gt} ==>
              && Strings.StartsWith(p, if f.value.cmp == Lt then "<" else ">")
              && !Strings.StartsWith(p[1..], "=")
              && Strings.ParseInt(p[1..]) == Some(f.value.bound)
    ensures f.Some? && f.value.cmp in {Le, Ge} ==>
              && Strings.StartsWith(p, if f.value.cmp == Le then "<=" else ">=")
              && Strings.ParseInt(p[2..]) == Some(f.value.bound)
    ensures f.Some? && f.value.cmp == Ne ==> Strings.ParseInt(p[1..]) == Some(f.value.bound)
  {
    if |p| == 0 then None
    else if p[0] == '<' || p[0] == '>' then
      var orEqual := Strings.StartsWith(p[1..], "=");
      var n := Strings.ParseInt(if orEqual then p[2..] else p[1..]);
      if n.None? then None
      else if p[0] == '<' then Some(LenFilter(if orEqual then Le else Lt, n.value))
      else Some(LenFilter(if orEqual then Ge else Gt, n.value))
    else if p[0] == '!' then
      var n := Strings.ParseInt(p[1..]);
      if n.None? then None else Some(LenFilter(Ne, n.value))
    else
      var n := Strings.ParseInt(p);
      if n.None? then None else Some(LenFilter(Eq, n.value))
  }

  /** The filter in the syntax the user types. */
  function Render(f: LenFilter): string {
    var b := Strings.IntToString(f.bound);
    match f.cmp
    case Lt => "<" + b
    case Le => "<=" + b
    case Gt => ">" + b
    case Ge => ">=" + b
    case Ne => "!" + b
    case Eq => b
  }

  /** Every condition written in the user syntax reads back as itself. */
  lemma FilterRender(f: LenFilter)
    ensures Filter(Render(f)) == Some(f)
  {
    var b := Strings.IntToString(f.bound);
    Strings.ParseIntToString(f.bound);
    assert !Strings.StartsWith(b, "=");
    match f.cmp
    case Lt => assert Render(f)[1..] == b;
    case Le => assert Render(f)[1..] == "=" + b && Render(f)[2..] == b;
    case Gt => assert Render(f)[1..] == b;
    case Ge => assert Render(f)[1..] == "=" + b && Render(f)[2..] == b;
    case Ne => assert Render(f)[1..] == b;
    case Eq =>
  }

  /** Whether a row with the given prefix length passes; a missing length
      compares as NaN, which only "not equal" lets through. */
  predicate Admits(f: LenFilter, len: Option<int>) {
    match len
    case None => f.cmp == Ne
    case Some(n) =>
      match f.cmp
      case Lt => n < f.bound
      case Le => n <= f.bound
      case Gt => n > f.bound
      case Ge => n >= f.bound
      case Eq => n == f.bound
      case Ne => n != f.bound
  }

  /** Lines 145-154: the rows the prefix-length filter keeps, in order. */
  function SelectPrefixlen(rows: seq<Route>, p: string): (r: Result<seq<Route>>)
    ensures r.Err? <==> Filter(p).None?
    ensures r.Err? ==> r.error.exc == QueryError
    ensures r.Ok? ==> |r.value| <= |rows|
    ensures r.Ok? ==> r.value == Tables.Where(rows, Admitted(Filter(p).value))
    ensures r.Ok? ==> forall x :: x in r.value <==> x in rows && Admits(Filter(p).value, x.prefixlen)
  {
    var f := Filter(p);
    if f.None? then Err(Error(QueryError, "invalid prefixlen expression"))
    else Ok(Keep(rows, f.value))
  }

  /** `Admits` as a row predicate. */
  function Admitted(f: LenFilter): Route -> bool {
    (r: Route) => Admits(f, r.prefixlen)
  }

  function Keep(rows: seq<Route>, f: LenFilter): (r: seq<Route>)
    ensures r == Tables.Where(rows, Admitted(f))
    ensures |r| <= |rows|
    ensures forall x :: x in r <==> x in rows && Admits(f, x.prefixlen)
  {
    if |rows| == 0 then []
    else
      assert rows == [rows[0]] + rows[1..];
      (if Admits(f, rows[0].prefixlen) then [rows[0]] else []) + Keep(rows[1..], f)
  }

  // -------------------------------------------------------------- next hops

  /** `numNexthops`: the larger of the two next-hop list lengths. */
  function NumNexthops(r: Route): (n: nat)
    ensures n >= |r.oifs| && n >= |r.nexthopIps|
    ensures n == |r.oifs| || n == |r.nexthopIps|
  {
    if |r.oifs| >= |r.nexthopIps| then |r.oifs| else |r.nexthopIps|
  }

  // ------------------------------------------------------------------- get

  /** What `get` asks the storage engine for (line 130): the fields beyond
      the requested columns, the normalised prefixes and the IP version. */
  datatype Fetch = Fetch(addnl: seq<string>, prefix: seq<string>, ipvers: Option<int>)

  /** What the storage engine answers: the rows, and whether the frame has a
      `prefix` column. */
  datatype Frame = Frame(rows: seq<Route>, hasPrefix: bool)

  /** The storage engine's `get`, which this model does not include. */
  type Fetcher = Fetch -> Frame

  /** The answer of `get` before the user query: the rows, the
      `numNexthops` column when it is inserted, and the columns to drop. */
  datatype GetAnswer = GetAnswer(rows: seq<Route>, nexthops: Option<seq<nat>>, drop: seq<string>)

  /** Lines 60-62 and 112-130: the request `get` sends for the non-`origin`
      query. Every field it adds to the caller's extra fields is dropped
      again before returning, whatever rows come back. */
  function Request(columns: seq<string>, addnl: seq<string>, prefix: seq<string>, ipvers: Option<int>,
                   prefixlen: string, versionOf: VersionOf, fixed: bool): (q: Fetch)
    ensures |addnl| <= |q.addnl| && q.addnl[..|addnl|] == addnl
    ensures forall b: bool, c :: c in q.addnl[|addnl|..] ==> c in DropColumns(columns, prefixlen, b, fixed)
    ensures "prefixlen" in q.addnl[|addnl|..] <==> prefixlen != "" && FilterGuard(columns, fixed)
    ensures (q.prefix, q.ipvers) == NormalisePrefixes(prefix, ipvers, versionOf)
  {
    var (fields, _) := ConsAddnlFields(columns, addnl);
    var base := ConsAddnlFields(columns, []).1;
    assert fields == addnl + base;
    var fields' := if prefixlen != "" && FilterGuard(columns, fixed) then fields + ["prefixlen"] else fields;
    assert fields'[|addnl|..] == if prefixlen != "" && FilterGuard(columns, fixed) then base + ["prefixlen"] else base;
    var (items, vers) := NormalisePrefixes(prefix, ipvers, versionOf);
    Fetch(fields', items, vers)
  }

  /** Whether line 138 derives `prefixlen`. */
  predicate Derives(columns: seq<string>, prefixlen: string) {
    prefixlen != "" || "prefixlen" in columns || columns == ["*"]
  }

  /** Whether line 159 inserts `numNexthops`. */
  predicate CountsNexthops(columns: seq<string>) {
    "numNexthops" in columns || columns == ["*"]
  }

  /** The prefix rows after lines 134-143: cleaned, and with `prefixlen`
      derived when line 138 asks for it. */
  function Prepared(rows: seq<Route>, columns: seq<string>, prefixlen: string): (r: Result<seq<Route>>)
    ensures r.Err? <==> Derives(columns, prefixlen) && exists k :: 0 <= k < |CleanRoutes(rows)| && BadLength(CleanRoutes(rows)[k])
    ensures r.Err? ==> r.error.exc == ValueError
    ensures r.Ok? && Derives(columns, prefixlen) ==>
              r.value == Tables.Map(Tables.Where(CleanRoutes(rows), HasLength), WithPrefixlen)
    ensures r.Ok? && !Derives(columns, prefixlen) ==> r.value == CleanRoutes(rows)
  {
    var cleaned := CleanRoutes(rows);
    if Derives(columns, prefixlen) then DerivePrefixlen(cleaned) else Ok(cleaned)
  }

  /** The non-`origin` branch of `get` (lines 60-62 and 111-164), for a
      storage engine `fetch`. Only a frame with rows and a `prefix` column
      is cleaned, gets `prefixlen` and is filtered; `numNexthops` is inserted
      only into a non-empty result; the drop list is `DropColumns` for
      whether such prefix rows came back. */
  function Get(columns: seq<string>, addnl: seq<string>, prefix: seq<string>, ipvers: Option<int>,
               prefixlen: string, versionOf: VersionOf, fetch: Fetcher, fixed: bool): (r: Result<GetAnswer>)
    ensures var f := fetch(Request(columns, addnl, prefix, ipvers, prefixlen, versionOf, fixed));
            var prefixRows := |f.rows| > 0 && f.hasPrefix;
            && (r.Err? <==> prefixRows && Filtered(f.rows, columns, prefixlen).Err?)
            && (r.Ok? ==> r.value.drop == DropColumns(columns, prefixlen, prefixRows, fixed))
            && (r.Ok? && !prefixRows ==> r.value.rows == f.rows)
            && (r.Ok? && prefixRows ==> r.value.rows == Filtered(f.rows, columns, prefixlen).value)
    ensures r.Err? ==> r.error.exc in {ValueError, QueryError}
    ensures r.Ok? ==> (r.value.nexthops.Some? <==> |r.value.rows| > 0 && CountsNexthops(columns))
    ensures r.Ok? && r.value.nexthops.Some? ==> r.value.nexthops.value == Tables.Map(r.value.rows, NumNexthops)
  {
    var f := fetch(Request(columns, addnl, prefix, ipvers, prefixlen, versionOf, fixed));
    var prefixRows := |f.rows| > 0 && f.hasPrefix;
    var rows :- if prefixRows then Filtered(f.rows, columns, prefixlen) else Ok(f.rows);
    var nexthops := if |rows| > 0 && CountsNexthops(columns) then Some(Tables.Map(rows, NumNexthops)) else None;
    Ok(GetAnswer(rows, nexthops, DropColumns(columns, prefixlen, prefixRows, fixed)))
  }

  /** The prefix rows after lines 134-154. */
  function Filtered(rows: seq<Route>, columns: seq<string>, prefixlen: string): (r: Result<seq<Route>>)
    ensures r.Err? <==> Prepared(rows, columns, prefixlen).Err? || (prefixlen != "" && Filter(prefixlen).None?)
    ensures r.Err? ==> r.error.exc in {ValueError, QueryError}
    ensures r.Ok? && prefixlen == "" ==> r == Prepared(rows, columns, prefixlen)
    ensures r.Ok? && prefixlen != "" ==>
              r.value == Tables.Where(Prepared(rows, columns, prefixlen).value, Admitted(Filter(prefixlen).value))
  {
    var prepared :- Prepared(rows, columns, prefixlen);
    if prefixlen != "" then SelectPrefixlen(prepared, prefixlen) else Ok(prepared)
  }

  /** With the corrected guard, `get` keeps a requested `prefixlen` column,
      and every returned prefix row carries the length written after its
      `/`; an empty frame or one without a `prefix` column gets no length. */
  lemma GetKeepsRequestedPrefixlen(columns: seq<string>, addnl: seq<string>, prefix: seq<string>, ipvers: Option<int>,
                                   prefixlen: string, versionOf: VersionOf, fetch: Fetcher)
    requires "prefixlen" in columns
    ensures var r := Get(columns, addnl, prefix, ipvers, prefixlen, versionOf, fetch, true);
            var f := fetch(Request(columns, addnl, prefix, ipvers, prefixlen, versionOf, true));
            && (r.Ok? ==> "prefixlen" !in r.value.drop)
            && (r.Ok? && |f.rows| > 0 && f.hasPrefix ==> forall k :: 0 <= k < |r.value.rows| ==>
                  LengthText(r.value.rows[k].prefix).Some? &&
                  r.value.rows[k].prefixlen == Strings.ParseInt(LengthText(r.value.rows[k].prefix).value))
            && (r.Ok? && !(|f.rows| > 0 && f.hasPrefix) ==> r.value.rows == f.rows)
  {
    var f := fetch(Request(columns, addnl, prefix, ipvers, prefixlen, versionOf, true));
    var r := Get(columns, addnl, prefix, ipvers, prefixlen, versionOf, fetch, true);
    if r.Ok? && |f.rows| > 0 && f.hasPrefix {
      var prepared := Prepared(f.rows, columns, prefixlen).value;
      var d := DerivePrefixlen(CleanRoutes(f.rows));
      assert prepared == d.value;
      forall k | 0 <= k < |r.value.rows|
        ensures LengthText(r.value.rows[k].prefix).Some?
        ensures r.value.rows[k].prefixlen == Strings.ParseInt(LengthText(r.value.rows[k].prefix).value)
      {
        var x := r.value.rows[k];
        assert x in prepared;
      }
    }
  }

  // ---------------------------------------------------- longest-prefix match

  /** A route considered by the longest-prefix match: the key it is grouped
      by, its prefix length and whether its network holds the address. */
  datatype Cand<K> = Cand(key: K, len: int, hit: bool)

  /** `len` exceeds the starting maximum (`None`: no starting maximum). */
  predicate Above(floor: Option<int>, len: int) {
    floor.None? || len > floor.value
  }

  /** The running maximum of key `k` after the first `n` candidates: it
      starts at `floor` and moves to the length of each hit of key `k` that
      beats it. */
  ghost function Running<K>(cs: seq<Cand<K>>, n: int, k: K, floor: Option<int>): Option<int>
    requires 0 <= n <= |cs|
  {
    if n == 0 then floor
    else
      var r := Running(cs, n - 1, k, floor);
      if Beats(cs[n - 1], k, r) then Some(cs[n - 1].len) else r
  }

  /** Candidate `c` is a hit of key `k` longer than the running maximum `r`. */
  ghost predicate Beats<K>(c: Cand<K>, k: K, r: Option<int>) {
    c.hit && c.key == k && Above(r, c.len)
  }

  /** The candidate that last moved the running maximum of key `k`. */
  ghost function Chosen<K>(cs: seq<Cand<K>>, n: int, k: K, floor: Option<int>): Option<nat>
    requires 0 <= n <= |cs|
  {
    if n == 0 then None
    else if Beats(cs[n - 1], k, Running(cs, n - 1, k, floor)) then Some(n - 1)
    else Chosen(cs, n - 1, k, floor)
  }

  /** The chosen candidate carries the running maximum, which otherwise is
      still the floor. */
  lemma {:induction false} ChosenRunning<K>(cs: seq<Cand<K>>, n: int, k: K, floor: Option<int>)
    requires 0 <= n <= |cs|
    ensures var c := Chosen(cs, n, k, floor);
            c.Some? ==> c.value < n && Running(cs, n, k, floor) == Some(cs[c.value].len)
    ensures Chosen(cs, n, k, floor).None? ==> Running(cs, n, k, floor) == floor
  {
    if n > 0 {
      ChosenRunning(cs, n - 1, k, floor);
    }
  }

  /** What the chosen candidate is: the first of the longest hits of its key
      above the floor, and there is one exactly when some hit of the key is
      above the floor. */
  lemma {:induction false} ChosenIsFirstLongest<K>(cs: seq<Cand<K>>, n: int, k: K, floor: Option<int>)
    requires 0 <= n <= |cs|
    ensures var c := Chosen(cs, n, k, floor);
            c.Some? ==> && c.value < n && cs[c.value].hit && cs[c.value].key == k
                        && Above(floor, cs[c.value].len)
    ensures var c := Chosen(cs, n, k, floor);
            forall j :: 0 <= j < n && cs[j].hit && cs[j].key == k && Above(floor, cs[j].len) ==>
              c.Some? && cs[j].len <= cs[c.value].len
    ensures var c := Chosen(cs, n, k, floor);
            c.Some? ==> forall j :: 0 <= j < c.value && cs[j].hit && cs[j].key == k ==> cs[j].len < cs[c.value].len
  {
    if n > 0 {
      ChosenIsFirstLongest(cs, n - 1, k, floor);
      ChosenRunning(cs, n - 1, k, floor);
      var c := Chosen(cs, n - 1, k, floor);
      if Beats(cs[n - 1], k, Running(cs, n - 1, k, floor)) {
        if c.Some? {
          assert Above(floor, cs[n - 1].len);
        }
      }
    }
  }

  /** After the candidates before `i`: `pos` maps each key that has a chosen
      candidate to its place in `sel`, and `sel` holds exactly those
      candidates. */
  ghost predicate Selected<K(!new)>(cs: seq<Cand<K>>, i: int, floor: Option<int>, sel: seq<int>, pos: map<K, nat>) {
    && 0 <= i <= |cs|
    && (forall p :: 0 <= p < |sel| ==> 0 <= sel[p] < |cs|)
    && (forall k :: k in pos <==> Chosen(cs, i, k, floor).Some?)
    && (forall k :: k in pos ==> pos[k] < |sel| && sel[pos[k]] == Chosen(cs, i, k, floor).value && cs[sel[pos[k]]].key == k)
    && (forall p :: 0 <= p < |sel| ==> cs[sel[p]].key in pos && pos[cs[sel[p]].key] == p)
  }

  /** The running maximum of a candidate's key is read off its selected
      candidate, and the candidate changes no other key's choice. */
  lemma SelectedCurrent<K(!new)>(cs: seq<Cand<K>>, i: int, floor: Option<int>, sel: seq<int>, pos: map<K, nat>)
    requires Selected(cs, i, floor, sel, pos) && i < |cs|
    ensures var c := cs[i];
            Running(cs, i, c.key, floor) == if c.key in pos then Some(cs[sel[pos[c.key]]].len) else floor
    ensures forall k :: k != cs[i].key ==> Chosen(cs, i + 1, k, floor) == Chosen(cs, i, k, floor)
  {
    ChosenRunning(cs, i, cs[i].key, floor);
  }

  /** A candidate that does not beat the running maximum of its key leaves
      the selection as it is. */
  lemma SelectedKeep<K(!new)>(cs: seq<Cand<K>>, i: int, floor: Option<int>, sel: seq<int>, pos: map<K, nat>)
    requires Selected(cs, i, floor, sel, pos) && i < |cs|
    requires !(cs[i].hit && Above(Running(cs, i, cs[i].key, floor), cs[i].len))
    ensures Selected(cs, i + 1, floor, sel, pos)
  {
    SelectedCurrent(cs, i, floor, sel, pos);
  }

  /** A candidate beating the selected candidate of its key replaces it. */
  lemma SelectedReplace<K(!new)>(cs: seq<Cand<K>>, i: int, floor: Option<int>, sel: seq<int>, pos: map<K, nat>)
    requires Selected(cs, i, floor, sel, pos) && i < |cs| && cs[i].key in pos
    requires cs[i].hit && Above(Running(cs, i, cs[i].key, floor), cs[i].len)
    ensures Selected(cs, i + 1, floor, sel[pos[cs[i].key] := i], pos)
  {
    SelectedCurrent(cs, i, floor, sel, pos);
  }

  /** A candidate beating the floor of a key with no selected candidate is
      appended. */
  lemma SelectedAppend<K(!new)>(cs: seq<Cand<K>>, i: int, floor: Option<int>, sel: seq<int>, pos: map<K, nat>)
    requires Selected(cs, i, floor, sel, pos) && i < |cs| && cs[i].key !in pos
    requires cs[i].hit && Above(Running(cs, i, cs[i].key, floor), cs[i].len)
    ensures Selected(cs, i + 1, floor, sel + [i], pos[cs[i].key := |sel|])
  {
    SelectedCurrent(cs, i, floor, sel, pos);
  }

  /** The selection loop of the match, in the order the source keeps its
      selected entries (a dictionary keyed in order of first selection, with
      a second map of running maxima, here read off the selected entry). The
      result lists, for each key, its chosen candidate. */
  method FirstLongest<K(==,!new)>(cs: seq<Cand<K>>, floor: Option<int>) returns (sel: seq<int>, ghost keys: seq<K>)
    ensures forall p :: 0 <= p < |sel| ==> 0 <= sel[p] < |cs| && Chosen(cs, |cs|, cs[sel[p]].key, floor) == Some(sel[p])
    ensures forall p, q :: 0 <= p < q < |sel| ==> cs[sel[p]].key != cs[sel[q]].key
    ensures forall k :: Chosen(cs, |cs|, k, floor).Some? ==> exists p :: 0 <= p < |sel| && cs[sel[p]].key == k
    ensures forall p :: 0 <= p < |sel| ==> FirstLongestOf(cs, sel[p], floor)
    ensures forall i :: 0 <= i < |cs| && cs[i].hit && Above(floor, cs[i].len) ==>
              exists p :: 0 <= p < |sel| && cs[sel[p]].key == cs[i].key
    ensures |keys| == |sel| && forall p :: 0 <= p < |sel| ==> keys[p] == cs[sel[p]].key
    ensures InFirstHitOrder(cs, |cs|, floor, keys)
  {
    sel := [];
    keys := [];
    var pos: map<K, nat> := map[];
    var i := 0;
    while i < |cs|
      invariant i <= |cs| && Scanned(cs, i, floor, sel, pos, keys)
    {
      var c := cs[i];
      var current := if c.key in pos then Some(cs[sel[pos[c.key]]].len) else floor;
      assert current == Current(cs, i, floor, sel, pos);
      if c.hit && Above(current, c.len) {
        if c.key in pos {
          ScanReplace(cs, i, floor, sel, pos, keys);
          sel := sel[pos[c.key] := i];
        } else {
          ScanAppend(cs, i, floor, sel, pos, keys);
          pos := pos[c.key := |sel|];
          sel := sel + [i];
          keys := keys + [c.key];
        }
      } else {
        ScanKeep(cs, i, floor, sel, pos, keys);
      }
      i := i + 1;
    }
    ScanDone(cs, floor, sel, pos, keys);
  }

  /** The first of the first `n` candidates that is a hit of key `k` above
      the floor: the candidate that puts `k` into the selection. */
  ghost function FirstHit<K>(cs: seq<Cand<K>>, n: int, k: K, floor: Option<int>): (f: Option<nat>)
    requires 0 <= n <= |cs|
    ensures f.Some? ==> f.value < n && cs[f.value].key == k && cs[f.value].hit && Above(floor, cs[f.value].len)
  {
    if n == 0 then None
    else if FirstHit(cs, n - 1, k, floor).Some? then FirstHit(cs, n - 1, k, floor)
    else if cs[n - 1].key == k && cs[n - 1].hit && Above(floor, cs[n - 1].len) then Some(n - 1)
    else None
  }

  /** Both keys were selected, the first one earlier. */
  predicate Before(a: Option<nat>, b: Option<nat>) {
    a.Some? && b.Some? && a.value < b.value
  }

  /** `keys` were all selected among the first `n` candidates, in the order
      of their first selection. */
  ghost predicate InFirstHitOrder<K>(cs: seq<Cand<K>>, n: int, floor: Option<int>, keys: seq<K>)
    requires 0 <= n <= |cs|
  {
    forall p, q :: 0 <= p < q < |keys| ==> Before(FirstHit(cs, n, keys[p], floor), FirstHit(cs, n, keys[q], floor))
  }

  /** A key has a chosen candidate exactly when it has a first hit. */
  lemma {:induction false} FirstHitChosen<K>(cs: seq<Cand<K>>, n: int, k: K, floor: Option<int>)
    requires 0 <= n <= |cs|
    ensures FirstHit(cs, n, k, floor).Some? <==> Chosen(cs, n, k, floor).Some?
  {
    if n > 0 {
      FirstHitChosen(cs, n - 1, k, floor);
      ChosenRunning(cs, n - 1, k, floor);
    }
  }

  /** One more candidate keeps the order of keys already selected. */
  lemma OrderKept<K>(cs: seq<Cand<K>>, i: int, floor: Option<int>, keys: seq<K>)
    requires 0 <= i < |cs| && InFirstHitOrder(cs, i, floor, keys)
    ensures InFirstHitOrder(cs, i + 1, floor, keys)
  {
  }

  /** The loop invariant of `FirstLongest` after the candidates before `i`:
      the selection and, as a ghost, the selected keys in order of first
      selection. */
  ghost predicate Scanned<K(!new)>(cs: seq<Cand<K>>, i: int, floor: Option<int>, sel: seq<int>, pos: map<K, nat>, keys: seq<K>) {
    && Selected(cs, i, floor, sel, pos)
    && |keys| == |sel| && (forall p :: 0 <= p < |sel| ==> keys[p] == cs[sel[p]].key)
    && InFirstHitOrder(cs, i, floor, keys)
  }

  /** The running maximum of the key of candidate `i`, as the loop reads it. */
  function Current<K>(cs: seq<Cand<K>>, i: int, floor: Option<int>, sel: seq<int>, pos: map<K, nat>): Option<int>
    requires 0 <= i < |cs|
    requires forall p :: 0 <= p < |sel| ==> 0 <= sel[p] < |cs|
    requires cs[i].key in pos ==> pos[cs[i].key] < |sel|
  {
    if cs[i].key in pos then Some(cs[sel[pos[cs[i].key]]].len) else floor
  }

  /** A candidate that is not selected keeps the scan. */
  lemma ScanKeep<K(!new)>(cs: seq<Cand<K>>, i: int, floor: Option<int>, sel: seq<int>, pos: map<K, nat>, keys: seq<K>)
    requires Scanned(cs, i, floor, sel, pos, keys) && i < |cs|
    requires !(cs[i].hit && Above(Current(cs, i, floor, sel, pos), cs[i].len))
    ensures Scanned(cs, i + 1, floor, sel, pos, keys)
  {
    SelectedCurrent(cs, i, floor, sel, pos);
    SelectedKeep(cs, i, floor, sel, pos);
    OrderKept(cs, i, floor, keys);
  }

  /** A candidate beating its selected key's candidate takes its place. */
  lemma ScanReplace<K(!new)>(cs: seq<Cand<K>>, i: int, floor: Option<int>, sel: seq<int>, pos: map<K, nat>, keys: seq<K>)
    requires Scanned(cs, i, floor, sel, pos, keys) && i < |cs| && cs[i].key in pos
    requires cs[i].hit && Above(Current(cs, i, floor, sel, pos), cs[i].len)
    ensures Scanned(cs, i + 1, floor, sel[pos[cs[i].key] := i], pos, keys)
  {
    SelectedCurrent(cs, i, floor, sel, pos);
    SelectedReplace(cs, i, floor, sel, pos);
    OrderKept(cs, i, floor, keys);
  }

  /** A candidate of a new key beating the floor is appended. */
  lemma ScanAppend<K(!new)>(cs: seq<Cand<K>>, i: int, floor: Option<int>, sel: seq<int>, pos: map<K, nat>, keys: seq<K>)
    requires Scanned(cs, i, floor, sel, pos, keys) && i < |cs| && cs[i].key !in pos
    requires cs[i].hit && Above(Current(cs, i, floor, sel, pos), cs[i].len)
    ensures Scanned(cs, i + 1, floor, sel + [i], pos[cs[i].key := |sel|], keys + [cs[i].key])
  {
    SelectedCurrent(cs, i, floor, sel, pos);
    SelectedAppend(cs, i, floor, sel, pos);
    FirstHitChosen(cs, i, cs[i].key, floor);
    forall p | 0 <= p < |keys| ensures Before(FirstHit(cs, i + 1, keys[p], floor), Some(i)) {
      FirstHitChosen(cs, i, keys[p], floor);
    }
    OrderKept(cs, i, floor, keys);
  }

  /** What a finished scan selected: per key with a hit above the floor, its
      first longest hit, no key twice. */
  lemma ScanDone<K(!new)>(cs: seq<Cand<K>>, floor: Option<int>, sel: seq<int>, pos: map<K, nat>, keys: seq<K>)
    requires Scanned(cs, |cs|, floor, sel, pos, keys)
    ensures forall p :: 0 <= p < |sel| ==> 0 <= sel[p] < |cs| && Chosen(cs, |cs|, cs[sel[p]].key, floor) == Some(sel[p])
    ensures forall p, q :: 0 <= p < q < |sel| ==> cs[sel[p]].key != cs[sel[q]].key
    ensures forall k :: Chosen(cs, |cs|, k, floor).Some? ==> exists p :: 0 <= p < |sel| && cs[sel[p]].key == k
    ensures forall p :: 0 <= p < |sel| ==> FirstLongestOf(cs, sel[p], floor)
    ensures forall i :: 0 <= i < |cs| && cs[i].hit && Above(floor, cs[i].len) ==>
              exists p :: 0 <= p < |sel| && cs[sel[p]].key == cs[i].key
  {
    forall k | Chosen(cs, |cs|, k, floor).Some?
      ensures exists p :: 0 <= p < |sel| && cs[sel[p]].key == k
    {
      assert cs[sel[pos[k]]].key == k;
    }
    forall p | 0 <= p < |sel| ensures FirstLongestOf(cs, sel[p], floor) {
      ChosenIsFirstLongest(cs, |cs|, cs[sel[p]].key, floor);
    }
    forall i | 0 <= i < |cs| && cs[i].hit && Above(floor, cs[i].len)
      ensures exists p :: 0 <= p < |sel| && cs[sel[p]].key == cs[i].key
    {
      ChosenIsFirstLongest(cs, |cs|, cs[i].key, floor);
      assert cs[sel[pos[cs[i].key]]].key == cs[i].key;
    }
  }

  /** Candidate `i` is a hit above the floor, as long as every hit of its
      key above the floor, and longer than every earlier hit of its key. */
  ghost predicate FirstLongestOf<K>(cs: seq<Cand<K>>, i: int, floor: Option<int>) {
    && 0 <= i < |cs| && cs[i].hit && Above(floor, cs[i].len)
    && (forall j :: 0 <= j < |cs| && cs[j].hit && cs[j].key == cs[i].key && Above(floor, cs[j].len) ==>
          cs[j].len <= cs[i].len)
    && (forall j :: 0 <= j < i && cs[j].hit && cs[j].key == cs[i].key ==> cs[j].len < cs[i].len)
  }

  // --------------------------------------------------------- IPv4 matching

  /** The number of hex digits `'%02x' % n` prints. */
  function HexWidth(n: nat): (w: nat)
    ensures w >= 2
    ensures n < 256 <==> w == 2
  {
    if n < 256 then 2 else 1 + HexWidth(n / 16)
  }

  function Pow16(k: nat): (p: nat)
    ensures p >= 1
  {
    if k == 0 then 1 else 16 * Pow16(k - 1)
  }

  /** `int(''.join('%02x' % o for o in octets), 16)`. */
  function OctetsValue(octets: seq<nat>): nat {
    if |octets| == 0 then 0
    else OctetsValue(octets[..|octets| - 1]) * Pow16(HexWidth(octets[|octets| - 1])) + octets[|octets| - 1]
  }

  /** For four octets below 256 the hex concatenation is the usual 32-bit
      value of a dotted quad. */
  lemma DottedQuadValue(a: nat, b: nat, c: nat, d: nat)
    requires a < 256 && b < 256 && c < 256 && d < 256
    ensures OctetsValue([a, b, c, d]) == a * 0x100_0000 + b * 0x1_0000 + c * 0x100 + d
    ensures OctetsValue([a, b, c, d]) < 0x1_0000_0000
  {
    assert Pow16(2) == 256;
    var q := [a, b, c, d];
    assert q[..3] == [a, b, c] && [a, b, c][..2] == [a, b] && [a, b][..1] == [a] && [a][..0] == [];
    assert OctetsValue([a]) == a;
    assert OctetsValue([a, b]) == a * 256 + b;
    assert OctetsValue([a, b, c]) == (a * 256 + b) * 256 + c;
    assert OctetsValue(q) == ((a * 256 + b) * 256 + c) * 256 + d;
  }

  /** The octet values of the text before the `/`; a part that is not a
      non-negative integer raises `ValueError`. */
  function Octets(parts: seq<string>): (r: Result<seq<nat>>)
    ensures r.Err? ==> r.error.exc == ValueError
    ensures r.Ok? ==> |r.value| == |parts|
    ensures r.Ok? ==> forall i :: 0 <= i < |parts| ==> Strings.ParseInt(parts[i]) == Some(r.value[i] as int)
    ensures r.Err? <==> exists i :: 0 <= i < |parts| && (Strings.ParseInt(parts[i]).None? || Strings.ParseInt(parts[i]).value < 0)
  {
    if |parts| == 0 then Ok([])
    else
      var n := Strings.ParseInt(parts[0]);
      var rest := Octets(parts[1..]);
      assert forall i :: 1 <= i < |parts| ==> parts[i] == parts[1..][i - 1];
      if n.None? || n.value < 0 then Err(Error(ValueError, "invalid literal for int() with base 10"))
      else if rest.Err? then rest
      else Ok([n.value as nat] + rest.value)
  }

  /** The integer `intaddr` of a route (line 273-276). */
  function NetworkValue(prefix: string): (r: Result<nat>)
    ensures r.Err? ==> r.error.exc == ValueError
  {
    var address := Strings.Split(prefix, '/')[0];
    var octets :- Octets(Strings.Split(address, '.'));
    Ok(OctetsValue(octets))
  }

  /** The decimal parts of a dotted quad. */
  function QuadParts(a: nat, b: nat, c: nat, d: nat): (parts: seq<string>)
    ensures |parts| == 4
  {
    [Strings.IntToString(a), Strings.IntToString(b), Strings.IntToString(c), Strings.IntToString(d)]
  }

  /** The decimal parts of a dotted quad read back as its octets, and hold
      neither separator. */
  lemma QuadOctets(a: nat, b: nat, c: nat, d: nat)
    ensures Octets(QuadParts(a, b, c, d)) == Ok([a, b, c, d])
    ensures forall i :: 0 <= i < 4 ==> '.' !in QuadParts(a, b, c, d)[i] && '/' !in QuadParts(a, b, c, d)[i]
  {
    var parts := QuadParts(a, b, c, d);
    forall i | 0 <= i < 4 ensures '.' !in parts[i] && '/' !in parts[i] && Strings.ParseInt(parts[i]) == Some([a, b, c, d][i] as int) {
      NoSeparatorInNumber([a, b, c, d][i]);
      Strings.ParseIntToString([a, b, c, d][i]);
    }
    var oc := Octets(parts);
    assert oc.Ok? && oc.value == [a, b, c, d];
  }

  /** The value of a prefix written as dot-joined parts and a length is
      the value of the octets the parts read as. */
  lemma NetworkValueOfParts(parts: seq<string>, len: string)
    requires |parts| >= 1
    requires forall i :: 0 <= i < |parts| ==> '.' !in parts[i] && '/' !in parts[i]
    ensures var oc := Octets(parts);
            NetworkValue(Strings.Join(parts, ".") + "/" + len) == if oc.Ok? then Ok(OctetsValue(oc.value)) else Err(oc.error)
  {
    var dotted := Strings.Join(parts, ".");
    Strings.SplitJoin(parts, '.');
    JoinFree(parts, ".", '/');
    Strings.SplitAfterSeparatorFree(dotted, len, '/');
    assert dotted + "/" + len == dotted + ['/'] + len;
  }

  /** A dotted quad written out with a length gives its 32-bit value back. */
  lemma NetworkValueOfDottedQuad(a: nat, b: nat, c: nat, d: nat, len: string)
    requires a < 256 && b < 256 && c < 256 && d < 256
    ensures var dotted := Strings.Join([Strings.IntToString(a), Strings.IntToString(b), Strings.IntToString(c), Strings.IntToString(d)], ".");
            NetworkValue(dotted + "/" + len) == Ok(a * 0x100_0000 + b * 0x1_0000 + c * 0x100 + d)
  {
    var parts := QuadParts(a, b, c, d);
    assert parts == [Strings.IntToString(a), Strings.IntToString(b), Strings.IntToString(c), Strings.IntToString(d)];
    QuadOctets(a, b, c, d);
    NetworkValueOfParts(parts, len);
    DottedQuadValue(a, b, c, d);
    var v := a * 0x100_0000 + b * 0x1_0000 + c * 0x100 + d;
    assert OctetsValue([a, b, c, d]) == v;
    assert NetworkValue(Strings.Join(parts, ".") + "/" + len) == Ok(v);
  }

  lemma NoSeparatorInNumber(n: nat)
    ensures '.' !in Strings.IntToString(n) && '/' !in Strings.IntToString(n)
  {
    var t := Strings.IntToString(n);
    assert Strings.AllDigits(t);
  }

  /** A join of parts and a separator free of `c` is free of `c`. */
  lemma {:induction false} JoinFree(parts: seq<string>, sep: string, c: char)
    requires |parts| >= 1 && c !in sep
    requires forall i :: 0 <= i < |parts| ==> c !in parts[i]
    ensures c !in Strings.Join(parts, sep)
    decreases |parts|
  {
    if |parts| > 1 {
      JoinFree(parts[1..], sep, c);
    }
  }

  /** `(0xffffffff << (32 - x)) & 0xffffffff`: `x` leading one bits; a length
      above 32 makes the shift count negative, which raises `ValueError`. */
  function Mask32(x: int): (r: Result<bv32>)
    ensures r.Err? <==> x > 32
    ensures x <= 0 ==> r == Ok(0)
    ensures x == 32 ==> r == Ok(0xffff_ffff)
  {
    if x > 32 then Err(Error(ValueError, "negative shift count"))
    else if x <= 0 then Ok(0)
    else Ok((0xffff_ffff as bv32) << (32 - x))
  }

  /** Line 279: address and network agree under the mask. */
  predicate Matches4(addr: bv32, network: nat, mask: bv32) {
    addr & mask == ((network % 0x1_0000_0000) as bv32) & mask
  }

  // ------------------------------------------------------ IPv4 longest match

  /** The table the match works on (lines 265-269): as fetched when it has a
      `prefixlen` column, otherwise with the length derived from the prefix. */
  function Table(rows: seq<Route>, hasPrefixlen: bool): Result<seq<Route>> {
    if hasPrefixlen then Ok(rows) else DerivePrefixlen(rows)
  }

  /** The mask of a row (line 278); a missing length is a float `NaN`, which
      cannot be shifted by. */
  function MaskOf(t: Route): (r: Result<bv32>)
    ensures r.Ok? <==> t.prefixlen.Some? && t.prefixlen.value <= 32
    ensures r.Err? ==> r.error.exc in {ValueError, TypeError}
  {
    if t.prefixlen.None? then Err(Error(TypeError, "unsupported operand type(s) for <<"))
    else Mask32(t.prefixlen.value)
  }

  /** Every row has a network integer and a mask. */
  predicate Wellformed4(t: seq<Route>) {
    forall i :: 0 <= i < |t| ==> NetworkValue(t[i].prefix).Ok? && MaskOf(t[i]).Ok?
  }

  /** Line 279: the row has a network integer and a mask, and the address
      agrees with the network under the mask. */
  predicate Hit4(addr: bv32, t: Route) {
    && NetworkValue(t.prefix).Ok? && MaskOf(t).Ok?
    && Matches4(addr, NetworkValue(t.prefix).value, MaskOf(t).value)
  }

  /** The prefix length a row is ordered by. */
  function Len(t: Route): int {
    if t.prefixlen.Some? then t.prefixlen.value else 0
  }

  /** The columns `drop_duplicates` compares (line 282). */
  function KeyOf(t: Route): (string, string, string) {
    (t.namespace, t.hostname, t.vrf)
  }

  /** The IPv4 branch of `lpm` (lines 265-282) for an address `addr`: all
      network integers are computed before any mask, so an unparsable
      prefix is reported before a length above 32. The answer holds the
      matching rows, one per (namespace, hostname, vrf), in descending
      prefix length, and for every matching row one of its key at least as
      long. */
  function Lpm4(addr: bv32, rows: seq<Route>, hasPrefixlen: bool): (r: Result<seq<Route>>)
    ensures r.Err? <==> Table(rows, hasPrefixlen).Err? || !Wellformed4(Table(rows, hasPrefixlen).value)
    ensures r.Err? ==> r.error.exc in {ValueError, TypeError}
    ensures r.Ok? ==> Tables.IsLongestPerKey(Table(rows, hasPrefixlen).value, (x: Route) => Hit4(addr, x), Len, KeyOf, r.value)
  {
    var t :- Table(rows, hasPrefixlen);
    var _ :- MapAll(t, (x: Route) => NetworkValue(x.prefix));
    var _ :- MapAll(t, MaskOf);
    var hit := (x: Route) => Hit4(addr, x);
    Tables.LongestPerKeySound(t, hit, Len, KeyOf);
    Ok(Tables.LongestPerKey(t, hit, Len, KeyOf))
  }

  // ------------------------------------------------------ IPv6 longest match

  /** An IPv6 prefix length. */
  type Len6 = x: int | 0 <= x <= 128

  /** A network as `ip_network` parses it: its address and prefix length. */
  datatype Net6 = Net6(network: bv128, prefixlen: Len6)

  /** `ip_network` applied to a prefix: the network, or `ValueError`. */
  type ParseNet6 = string -> Result<Net6>

  /** The netmask of a prefix length: `len` leading one bits. */
  function Mask128(len: Len6): bv128 {
    if len == 0 then 0 else (0xffff_ffff_ffff_ffff_ffff_ffff_ffff_ffff as bv128) << ((128 - len) as bv8)
  }

  /** `ipaddr in rtentry` (line 288). */
  predicate Contains6(net: Net6, addr: bv128) {
    addr & Mask128(net.prefixlen) == net.network
  }

  /** The dictionary key of a row (line 289): the three columns joined with
      dashes. */
  function KeyText(t: Route): string {
    t.namespace + "-" + t.hostname + "-" + t.vrf
  }

  /** Joined with dashes, rows of different namespaces and hostnames can
      share a key, and then only one of them is answered. */
  lemma KeyTextCollides()
    ensures var a := Route("a-b", "c", "d", "", [], [], None);
            var b := Route("a", "b-c", "d", "", [], [], None);
            KeyOf(a) != KeyOf(b) && KeyText(a) == KeyText(b)
  {
    assert "a-b" + "-" + "c" + "-" + "d" == "a" + "-" + "b-c" + "-" + "d";
  }

  /** The candidates of the IPv6 loop: each row's key, its network's length
      and whether the network contains the address. */
  function Cands6(addr: bv128, t: seq<Route>, nets: seq<Net6>): (cs: seq<Cand<string>>)
    requires |nets| == |t|
    ensures |cs| == |t|
    ensures forall i :: 0 <= i < |t| ==> cs[i] == Cand(KeyText(t[i]), nets[i].prefixlen, Contains6(nets[i], addr))
  {
    seq(|t|, i requires 0 <= i < |t| => Cand(KeyText(t[i]), nets[i].prefixlen, Contains6(nets[i], addr)))
  }

  /** The starting maximum of every key: `defaultdict(int)` starts it at
      0 (line 285), so a zero-length network is never longer; the corrected
      loop has no starting maximum. */
  function Floor6(fixed: bool): (f: Option<int>)
    ensures fixed <==> f.None?
  {
    if fixed then None else Some(0)
  }

  /** An answer of the IPv6 loop for the candidates `cs` of table `t`: row
      `p` of `out` is row `picked[p]` of the table, the first of the longest
      containing networks of its key above `floor`; no two rows share a key,
      and every key with a containing network above `floor` has its row. */
  ghost predicate Lpm6Answer(cs: seq<Cand<string>>, t: seq<Route>, floor: Option<int>, out: seq<Route>, picked: seq<int>)
    requires |cs| == |t|
  {
    && |out| == |picked|
    && (forall p :: 0 <= p < |picked| ==>
          0 <= picked[p] < |t| && out[p] == t[picked[p]] && FirstLongestOf(cs, picked[p], floor))
    && (forall p, q :: 0 <= p < q < |out| ==> KeyText(out[p]) != KeyText(out[q]))
    && (forall i :: 0 <= i < |t| && cs[i].hit && Above(floor, cs[i].len) ==>
          exists p :: 0 <= p < |out| && KeyText(out[p]) == KeyText(t[i]))
    && InFirstHitOrder(cs, |cs|, floor, Tables.Map(out, KeyText))
  }

  /** The rows of a selection of first longest candidates answer the loop. */
  lemma SelectionAnswers(cs: seq<Cand<string>>, t: seq<Route>, floor: Option<int>, sel: seq<int>, out: seq<Route>)
    requires |cs| == |t| && forall i :: 0 <= i < |t| ==> cs[i].key == KeyText(t[i])
    requires forall p :: 0 <= p < |sel| ==> FirstLongestOf(cs, sel[p], floor)
    requires forall p, q :: 0 <= p < q < |sel| ==> 0 <= sel[p] < |cs| && 0 <= sel[q] < |cs| && cs[sel[p]].key != cs[sel[q]].key
    requires forall i :: 0 <= i < |cs| && cs[i].hit && Above(floor, cs[i].len) ==>
               exists p :: 0 <= p < |sel| && 0 <= sel[p] < |cs| && cs[sel[p]].key == cs[i].key
    requires |out| == |sel| && forall p :: 0 <= p < |sel| ==> 0 <= sel[p] < |t| && out[p] == t[sel[p]]
    requires InFirstHitOrder(cs, |cs|, floor, Tables.Map(out, KeyText))
    ensures Lpm6Answer(cs, t, floor, out, sel)
  {
  }

  /** Some candidate is a hit above the floor: the loop selects a row. */
  predicate AnySelected(cs: seq<Cand<string>>, floor: Option<int>) {
    exists i :: 0 <= i < |cs| && cs[i].hit && Above(floor, cs[i].len)
  }

  /** A selection of first longest candidates is empty exactly when no
      candidate is a hit above the floor. */
  lemma NothingSelected(cs: seq<Cand<string>>, floor: Option<int>, sel: seq<int>)
    requires forall p :: 0 <= p < |sel| ==> FirstLongestOf(cs, sel[p], floor)
    requires forall i :: 0 <= i < |cs| && cs[i].hit && Above(floor, cs[i].len) ==>
               exists p :: 0 <= p < |sel| && 0 <= sel[p] < |cs| && cs[sel[p]].key == cs[i].key
    ensures |sel| == 0 <==> !AnySelected(cs, floor)
  {
    if |sel| > 0 {
      assert FirstLongestOf(cs, sel[0], floor);
    }
  }

  /** The IPv6 branch of `lpm` (lines 261-269 and 284-299): an empty table
      is answered as it is; networks are parsed row by row, so the first
      unparsable prefix raises; for every key the answer holds the first of
      its longest containing networks above the starting maximum, in order of
      first selection. When the loop selects nothing from a non-empty table,
      the empty frame has none of the display columns and selecting them
      raises `KeyError`. */
  method Lpm6(addr: bv128, rows: seq<Route>, hasPrefixlen: bool, parse: ParseNet6, fixed: bool)
    returns (r: Result<seq<Route>>, ghost picked: seq<int>)
    ensures r.Err? <==> || Table(rows, hasPrefixlen).Err?
                        || MapAll(Table(rows, hasPrefixlen).value, (x: Route) => parse(x.prefix)).Err?
                        || (var t := Table(rows, hasPrefixlen).value;
                            |rows| > 0 &&
                            !AnySelected(Cands6(addr, t, MapAll(t, (x: Route) => parse(x.prefix)).value), Floor6(fixed)))
    ensures r.Err? && Table(rows, hasPrefixlen).Ok? &&
              MapAll(Table(rows, hasPrefixlen).value, (x: Route) => parse(x.prefix)).Ok? ==>
              r.error.exc == KeyError
    ensures r.Ok? ==>
              var t := Table(rows, hasPrefixlen).value;
              Lpm6Answer(Cands6(addr, t, MapAll(t, (x: Route) => parse(x.prefix)).value), t, Floor6(fixed), r.value, picked)
  {
    picked := [];
    var table := Table(rows, hasPrefixlen);
    if table.Err? {
      return Err(table.error), picked;
    }
    var t := table.value;
    var nets := MapAll(t, (x: Route) => parse(x.prefix));
    if nets.Err? {
      return Err(nets.error), picked;
    }
    r, picked := Select6(Cands6(addr, t, nets.value), t, Floor6(fixed), |rows| > 0);
  }

  /** The selection and the final column pick of the IPv6 loop over the
      candidates `cs` of table `t`. */
  method Select6(cs: seq<Cand<string>>, t: seq<Route>, floor: Option<int>, nonEmpty: bool)
    returns (r: Result<seq<Route>>, ghost picked: seq<int>)
    requires |cs| == |t| && forall i :: 0 <= i < |t| ==> cs[i].key == KeyText(t[i])
    ensures r.Err? <==> nonEmpty && !AnySelected(cs, floor)
    ensures r.Err? ==> r.error.exc == KeyError
    ensures r.Ok? ==> Lpm6Answer(cs, t, floor, r.value, picked)
  {
    var sel, keys := FirstLongest(cs, floor);
    NothingSelected(cs, floor, sel);
    if nonEmpty && |sel| == 0 {
      return Err(Error(KeyError, "None of the display columns are in the columns")), [];
    }
    picked := sel;
    var out := seq(|sel|, p requires 0 <= p < |sel| => t[sel[p]]);
    assert Tables.Map(out, KeyText) == keys;
    SelectionAnswers(cs, t, floor, sel, out);
    r := Ok(out);
  }

  /** A default route `::/0` holding the address is never chosen with the
      starting maximum 0, and is chosen without one. As the only candidate it
      leaves nothing selected, which `Select6` answers with `KeyError`. */
  lemma DefaultRouteSkipped(k: string)
    ensures Chosen([Cand(k, 0, true)], 1, k, Floor6(false)).None?
    ensures Chosen([Cand(k, 0, true)], 1, k, Floor6(true)) == Some(0)
    ensures !AnySelected([Cand(k, 0, true)], Floor6(false))
    ensures AnySelected([Cand(k, 0, true)], Floor6(true))
  {
    assert [Cand(k, 0, true)][0].hit;
  }
}
