/** The path page's session state: how it is restored from the page URL, how
    the sidebar changes it, and how a page run ties the sidebar, the traced
    hop table and the graph together.
 */
module PathPage {

  import opened Outcomes
  import PathGraph

  /** `show_ifnames` is declared `bool`, but nothing enforces it: restoring
      the state from the URL stores the raw text there. */
  datatype Flag = FlagBool(b: bool) | FlagText(text: string)

  /** Python's truthiness of the flag. */
  predicate Truthy(f: Flag) {
    match f
    case FlagBool(b) => b
    case FlagText(t) => |t| > 0
  }

  /** `PathSessionState`. */
  datatype SessionState = SessionState(
    run: bool,
    namespace: string,
    source: string,
    dest: string,
    startTime: string,
    endTime: string,
    showIfnames: Flag,
    vrf: string)

  /** The dataclass defaults. */
  function DefaultState(): (s: SessionState)
    ensures !s.run && !Truthy(s.showIfnames)
    ensures s.namespace == s.source == s.dest == s.startTime == s.endTime == s.vrf == ""
  {
    SessionState(false, "", "", "", "", "", FlagBool(false), "")
  }

  /** The keyword names of the dataclass fields. */
  const FieldNames: set<string> :=
    {"run", "namespace", "source", "dest", "start_time", "end_time", "show_ifnames", "vrf"}

  /** Python's `str` of a boolean. */
  function BoolText(b: bool): (t: string)
    ensures b <==> t == "True"
  {
    if b then "True" else "False"
  }

  function FlagValue(f: Flag): string {
    match f
    case FlagBool(b) => BoolText(b)
    case FlagText(t) => t
  }

  /** The query parameters the page writes back: `asdict(state)`, every value
      rendered with `str`. */
  function Encode(s: SessionState): (q: map<string, string>)
    ensures q.Keys == FieldNames
    ensures q["run"] == "True" <==> s.run
    ensures q["namespace"] == s.namespace && q["source"] == s.source && q["dest"] == s.dest
    ensures q["start_time"] == s.startTime && q["end_time"] == s.endTime && q["vrf"] == s.vrf
    ensures q["show_ifnames"] == (if s.showIfnames.FlagBool? then BoolText(s.showIfnames.b) else s.showIfnames.text)
  {
    map["run" := BoolText(s.run), "namespace" := s.namespace, "source" := s.source,
        "dest" := s.dest, "start_time" := s.startTime, "end_time" := s.endTime,
        "show_ifnames" := FlagValue(s.showIfnames), "vrf" := s.vrf]
  }

  /** The query string of a page URL as Streamlit hands it over: every
      parameter with the list of its values. */
  type Query = map<string, seq<string>>

  /** The query a link to the path page carries for a given state. */
  function PageLink(s: SessionState): (q: Query)
    ensures q.Keys == FieldNames + {"page"}
    ensures q["page"] == ["Path"]
    ensures forall k :: k in FieldNames ==> q[k] == [Encode(s)[k]]
  {
    var e := Encode(s);
    (map k | k in e :: [e[k]])["page" := ["Path"]]
  }

  /** The page name's parameter values, `[]` when absent. */
  function PageValues(q: Query): seq<string> {
    if "page" in q then q["page"] else []
  }

  /** Whether the URL is restored into the state at all: the page parameter
      lists `Path` and some other parameter has a value. */
  predicate Restores(q: Query) {
    "Path" in PageValues(q) && exists k :: k in q && k != "page" && |q[k]| > 0
  }

  /** The parameters passed to the dataclass constructor: without `page` and
      `search_text`. */
  function Arguments(q: Query): (a: Query)
    ensures forall k :: k in a <==> k in q && k != "page" && k != "search_text"
  {
    q - {"page", "search_text"}
  }

  /** The state built by the constructor from the given keyword arguments,
      each being the first value of its parameter; missing ones take their
      default. Only `run` is converted; `show_ifnames` keeps its text. */
  function Construct(a: map<string, string>): SessionState {
    var d := DefaultState();
    SessionState(
      if "run" in a then a["run"] == "True" else d.run,
      if "namespace" in a then a["namespace"] else d.namespace,
      if "source" in a then a["source"] else d.source,
      if "dest" in a then a["dest"] else d.dest,
      if "start_time" in a then a["start_time"] else d.startTime,
      if "end_time" in a then a["end_time"] else d.endTime,
      if "show_ifnames" in a then FlagText(a["show_ifnames"]) else d.showIfnames,
      if "vrf" in a then a["vrf"] else d.vrf)
  }

  /** The same with `show_ifnames` converted like `run`. */
  function ConstructFixed(a: map<string, string>): SessionState {
    var s := Construct(a);
    if "show_ifnames" in a then s.(showIfnames := FlagBool(a["show_ifnames"] == "True")) else s
  }

  /** Restoring the state from the URL as `page_work` does: when `Restores`
      holds, an empty value list raises `IndexError` (taking its first
      element), an unknown parameter raises `TypeError` (the constructor
      rejects it), and otherwise the state is rebuilt from the first values
      alone; otherwise the state is kept. `fixed` selects the corrected
      conversion of `show_ifnames`. */
  function Restore(state: SessionState, q: Query, fixed: bool): (r: Result<SessionState>)
    ensures !Restores(q) ==> r == Ok(state)
    ensures Restores(q) ==>
              (r.Err? && r.error.exc == IndexError <==> exists k :: k in Arguments(q) && |q[k]| == 0)
    ensures Restores(q) && (forall k :: k in Arguments(q) ==> |q[k]| > 0) ==>
              (r.Err? <==> exists k :: k in Arguments(q) && k !in FieldNames)
    ensures r.Err? ==> r.error.exc in {IndexError, TypeError}
    ensures Restores(q) && r.Ok? ==> forall k :: k in Arguments(q) ==> k in FieldNames && |q[k]| > 0
    ensures Restores(q) && r.Ok? ==>
              && (r.value.run <==> "run" in q && q["run"][0] == "True")
              && r.value.namespace == (if "namespace" in q then q["namespace"][0] else "")
              && r.value.source == (if "source" in q then q["source"][0] else "")
              && r.value.dest == (if "dest" in q then q["dest"][0] else "")
              && r.value.vrf == (if "vrf" in q then q["vrf"][0] else "")
              && r.value.startTime == (if "start_time" in q then q["start_time"][0] else "")
              && r.value.endTime == (if "end_time" in q then q["end_time"][0] else "")
              && r.value.showIfnames ==
                   (if "show_ifnames" !in q then FlagBool(false)
                    else if fixed then FlagBool(q["show_ifnames"][0] == "True")
                    else FlagText(q["show_ifnames"][0]))
  {
    if !Restores(q) then Ok(state)
    else
      var a := Arguments(q);
      if exists k :: k in a && |a[k]| == 0 then Err(Error(IndexError, "list index out of range"))
      else if exists k :: k in a && k !in FieldNames then Err(Error(TypeError, "__init__() got an unexpected keyword argument"))
      else
        RestoreReads(q, fixed);
        Ok(if fixed then ConstructFixed(Firsts(q)) else Construct(Firsts(q)))
  }

  /** The keyword arguments: the first value of each parameter passed on. */
  function Firsts(q: Query): (a: map<string, string>)
    requires forall k :: k in Arguments(q) ==> |q[k]| > 0
  {
    map k | k in Arguments(q) :: q[k][0]
  }

  /** Each field of the state built from a query is the parameter's first
      value, or the field's default when the parameter is missing. */
  lemma RestoreReads(q: Query, fixed: bool)
    requires forall k :: k in Arguments(q) ==> |q[k]| > 0
    ensures var s := if fixed then ConstructFixed(Firsts(q)) else Construct(Firsts(q));
            && (s.run <==> "run" in q && q["run"][0] == "True")
            && s.namespace == (if "namespace" in q then q["namespace"][0] else "")
            && s.source == (if "source" in q then q["source"][0] else "")
            && s.dest == (if "dest" in q then q["dest"][0] else "")
            && s.vrf == (if "vrf" in q then q["vrf"][0] else "")
            && s.startTime == (if "start_time" in q then q["start_time"][0] else "")
            && s.endTime == (if "end_time" in q then q["end_time"][0] else "")
            && s.showIfnames ==
                 (if "show_ifnames" !in q then FlagBool(false)
                  else if fixed then FlagBool(q["show_ifnames"][0] == "True")
                  else FlagText(q["show_ifnames"][0]))
  {
    var a := Firsts(q);
    assert forall k :: k in FieldNames ==> (k in a <==> k in q) && (k in a ==> a[k] == q[k][0]);
  }

  /** A link written for a state is restored: it names the page, carries
      one value per field and nothing else, and its first values are the
      written fields. */
  lemma LinkArguments(s: SessionState)
    ensures var q := PageLink(s);
            && Restores(q)
            && (forall k :: k in Arguments(q) ==> k in FieldNames && |q[k]| > 0)
            && (map k | k in Arguments(q) :: Arguments(q)[k][0]) == Encode(s)
  {
    var q := PageLink(s);
    assert "run" in q && q["run"] == [Encode(s)["run"]];
    var a := Arguments(q);
    assert a.Keys == FieldNames;
  }

  /** As written, a state whose `show_ifnames` is false, written to a link
      and restored from it, comes back with `show_ifnames` set to the text
      `"False"`, which is truthy: the interface names are shown. */
  lemma RestoreShowsIfnamesAsWritten(s: SessionState, state: SessionState)
    requires s.showIfnames == FlagBool(false)
    ensures var r := Restore(state, PageLink(s), false);
            r.Ok? && r.value.showIfnames == FlagText("False") && Truthy(r.value.showIfnames)
  {
    LinkArguments(s);
    assert Construct(Encode(s)).showIfnames == FlagText("False");
  }

  /** With the corrected conversion, restoring a link written for a state
      whose flag is a boolean gives back exactly that state, whatever the
      state before. */
  lemma RestoreLinkRoundTrip(s: SessionState, state: SessionState)
    requires s.showIfnames.FlagBool?
    ensures Restore(state, PageLink(s), true) == Ok(s)
  {
    LinkArguments(s);
    assert ConstructFixed(Encode(s)) == s;
  }

  /** What the sidebar widgets return in one page run. A text or check box
      the user did not touch (`None`) returns the value it was given, taken
      from the state; the namespace box, untouched, returns the state's
      namespace, or the first namespace when the state has none. */
  datatype SidebarInput = SidebarInput(
    tracePressed: bool,
    namespace: Option<string>,
    source: Option<string>,
    dest: Option<string>,
    vrf: Option<string>,
    startTime: Option<string>,
    endTime: Option<string>,
    showIfnames: Option<bool>)

  function Widget<T>(input: Option<T>, current: T): (v: T)
    ensures input.Some? ==> v == input.value
    ensures input.None? ==> v == current
  {
    if input.Some? then input.value else current
  }

  /** `path_sidebar`, given the namespaces present in the device table. No
      namespace stops the page; a state namespace that is not among them
      raises `ValueError` (`list.index`). Otherwise the text boxes and the
      check box overwrite their fields, and `run` and `namespace` move as
      follows: with namespace, source and destination all empty the trace is
      off; else the Trace button turns it on; else choosing another namespace
      turns it off and adopts that namespace; else nothing more changes. */
  function Sidebar(state: SessionState, namespaces: seq<string>, input: SidebarInput): (r: Result<SessionState>)
    ensures r.Err? <==> |namespaces| == 0 || (state.namespace != "" && state.namespace !in namespaces)
    ensures r.Err? ==> r.error.exc == (if |namespaces| == 0 then StopException else ValueError)
    ensures r.Ok? ==>
              && r.value.source == Widget(input.source, state.source)
              && r.value.dest == Widget(input.dest, state.dest)
              && r.value.vrf == Widget(input.vrf, state.vrf)
              && r.value.startTime == Widget(input.startTime, state.startTime)
              && r.value.endTime == Widget(input.endTime, state.endTime)
              && r.value.showIfnames == FlagBool(Widget(input.showIfnames, Truthy(state.showIfnames)))
    ensures r.Ok? ==>
              var selected := Widget(input.namespace, if state.namespace != "" then state.namespace else namespaces[0]);
              var cleared := state.namespace == "" && r.value.source == "" && r.value.dest == "";
              && (cleared ==> !r.value.run && r.value.namespace == state.namespace)
              && (!cleared && input.tracePressed ==> r.value.run && r.value.namespace == state.namespace)
              && (!cleared && !input.tracePressed && selected != state.namespace ==>
                    !r.value.run && r.value.namespace == selected)
              && (!cleared && !input.tracePressed && selected == state.namespace ==>
                    r.value.run == state.run && r.value.namespace == state.namespace)
  {
    if |namespaces| == 0 then Err(Error(StopException, "Unable to retrieve any namespace info"))
    else if state.namespace != "" && state.namespace !in namespaces then Err(Error(ValueError, "is not in list"))
    else
      var selected := Widget(input.namespace, if state.namespace != "" then state.namespace else namespaces[0]);
      var s := state.(
        source := Widget(input.source, state.source),
        dest := Widget(input.dest, state.dest),
        vrf := Widget(input.vrf, state.vrf),
        startTime := Widget(input.startTime, state.startTime),
        endTime := Widget(input.endTime, state.endTime),
        showIfnames := FlagBool(Widget(input.showIfnames, Truthy(state.showIfnames))));
      Ok(if s.namespace == "" && s.source == "" && s.dest == "" then s.(run := false)
         else if input.tracePressed then s.(run := true)
         else if selected != s.namespace then s.(run := false, namespace := selected)
         else s)
  }

  /** What one run of the page leaves behind: the session state, the graph
      drawn (if any) and the query parameters written back to the URL. */
  datatype PageView = PageView(state: SessionState, graph: Option<PathGraph.Graph>, query: map<string, string>)

  /** The state one run of the page settles on: the stored state (the
      defaults on the first visit) restored from the URL, then passed through
      the sidebar. */
  function RunState(stored: Option<SessionState>, q: Query, namespaces: seq<string>, input: SidebarInput,
                    fixed: bool): (r: Result<SessionState>)
    ensures r.Ok? ==> r.value.showIfnames.FlagBool?
    ensures r.Ok? && input.showIfnames.None? && Restores(q) && "show_ifnames" in q && |q["show_ifnames"]| > 0 ==>
              r.value.showIfnames ==
                FlagBool(if fixed then q["show_ifnames"][0] == "True" else q["show_ifnames"][0] != "")
    ensures r.Ok? && fixed ==> Restore(DefaultState(), PageLink(r.value), fixed) == Ok(r.value)
    ensures r.Ok? && !fixed && !Truthy(r.value.showIfnames) ==>
              Restore(DefaultState(), PageLink(r.value), fixed) != Ok(r.value)
    ensures |namespaces| == 0 ==> r.Err?
  {
    var restored := Restore(if stored.Some? then stored.value else DefaultState(), q, fixed);
    if restored.Err? then Err(restored.error)
    else
      var state := Sidebar(restored.value, namespaces, input);
      if state.Err? then state
      else if fixed then
        RestoreLinkRoundTrip(state.value, DefaultState());
        state
      else if !Truthy(state.value.showIfnames) then
        RestoreShowsIfnamesAsWritten(state.value, DefaultState());
        state
      else state
  }

  /** The session state a run of the page leaves in the session, on every
      exit after the sidebar and on the early ones too: the restore and the
      sidebar change the stored state in place, and neither changes it
      before its own error (line 218 is reached only after every URL value
      was read; the sidebar assigns only after its namespace checks). */
  function Settled(stored: Option<SessionState>, q: Query, namespaces: seq<string>, input: SidebarInput,
                   fixed: bool): (s: SessionState)
    ensures RunState(stored, q, namespaces, input, fixed).Ok? ==> s == RunState(stored, q, namespaces, input, fixed).value
    ensures var start := if stored.Some? then stored.value else DefaultState();
            Restore(start, q, fixed).Err? ==> s == start
    ensures var start := if stored.Some? then stored.value else DefaultState();
            Restore(start, q, fixed).Ok? && Sidebar(Restore(start, q, fixed).value, namespaces, input).Err? ==>
              s == Restore(start, q, fixed).value
  {
    var start := if stored.Some? then stored.value else DefaultState();
    var restored := Restore(start, q, fixed);
    if restored.Err? then start
    else
      var state := Sidebar(restored.value, namespaces, input);
      if state.Err? then restored.value else state.value
  }

  /** `page_work`. The stored state (none on the first visit) is restored from
      the URL and passed through the sidebar; `fixed` selects the corrected
      conversion of `show_ifnames` in the restore. `trace` stands for the path
      engine's answer for that state. With the trace off the page writes the
      state to the URL and ends; an empty trace draws nothing (its `st.stop`
      is never called, so the page runs on to the end); otherwise the graph
      is built. Errors of the URL restore, the sidebar, the path engine and
      the graph builder end the run. As written, an untouched check box
      shows interface names whenever the URL carries any non-empty text for
      them, `"False"` included, so a state with them off does not survive
      its own link; corrected, it does. */
  method PageWork(stored: Option<SessionState>, q: Query, namespaces: seq<string>, input: SidebarInput,
                  trace: Result<seq<PathGraph.Hop>>, quote: string -> string, fixed: bool)
    returns (next: SessionState, r: Result<PageView>)
    ensures next == Settled(stored, q, namespaces, input, fixed)
    ensures r.Ok? ==> r.value.state == next
    ensures trace.Err? && RunState(stored, q, namespaces, input, fixed).Ok? ==> (r.Err? <==> next.run)
    ensures r.Ok? ==> r.value.query == Encode(r.value.state)
    ensures r.Ok? ==> r.value.state.showIfnames.FlagBool?
    ensures r.Ok? && input.showIfnames.None? && Restores(q) && "show_ifnames" in q && |q["show_ifnames"]| > 0 ==>
              r.value.state.showIfnames ==
                FlagBool(if fixed then q["show_ifnames"][0] == "True" else q["show_ifnames"][0] != "")
    ensures r.Ok? && fixed ==> Restore(DefaultState(), PageLink(r.value.state), fixed) == Ok(r.value.state)
    ensures r.Ok? && !fixed && !Truthy(r.value.state.showIfnames) ==>
              Restore(DefaultState(), PageLink(r.value.state), fixed) != Ok(r.value.state)
    ensures r.Ok? ==> (r.value.graph.Some? <==> r.value.state.run && trace.Ok? && |trace.value| > 0)
    ensures r.Ok? && r.value.graph.Some? ==> r.value.graph.value.wideNodeSep == Truthy(r.value.state.showIfnames)
    ensures trace.Err? && r.Ok? ==> !r.value.state.run
    ensures |namespaces| == 0 ==> r.Err?
  {
    next := Settled(stored, q, namespaces, input, fixed);
    var settled := RunState(stored, q, namespaces, input, fixed);
    if settled.Err? {
      return next, Err(settled.error);
    }
    var state := settled.value;
    if !state.run {
      return next, Ok(PageView(state, None, Encode(state)));
    }
    if trace.Err? {
      return next, Err(Error(StopException, "Invalid Input"));
    }
    var rows := trace.value;
    if |rows| == 0 {
      return next, Ok(PageView(state, None, Encode(state)));
    }
    var g := PathGraph.BuildGraph(rows, state.namespace, Truthy(state.showIfnames), quote);
    if g.Err? {
      return next, Err(g.error);
    }
    r := Ok(PageView(state, Some(g.value), Encode(state)));
  }

  /** As written, the next run of the page from a link written for a state
      with interface names off, the check box untouched, turns them on. */
  lemma NextRunShowsIfnamesAsWritten(s: SessionState, state: SessionState, namespaces: seq<string>,
                                     input: SidebarInput)
    requires s.showIfnames == FlagBool(false)
    requires |namespaces| > 0 && (s.namespace == "" || s.namespace in namespaces)
    requires input.showIfnames.None?
    ensures var restored := Restore(state, PageLink(s), false);
            && restored.Ok?
            && var next := Sidebar(restored.value, namespaces, input);
               next.Ok? && next.value.showIfnames == FlagBool(true)
  {
    RestoreShowsIfnamesAsWritten(s, state);
    LinkArguments(s);
  }
}
