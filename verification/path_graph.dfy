/** The path-trace graph builder of the Path page
    (`build_graphviz_obj` in suzieq/gui/pages/gui_path.py).

  The hop table produced by the path engine is a sequence of `Hop` rows in
  table order. The builder picks a layout, declares one node per hostname
  (grouped into same-rank groups by hop count in the ranked layout) and walks
  the rows once, drawing one edge per (previous host, current host) pair; the
  first row producing a pair decides that edge's colour, label, tooltip and
  link. The graphviz object becomes a `Graph` value; percent-encoding of URL
  components is the parameter `quote`.
 */
module PathGraph {

  import Strings
  import Seqs
  import opened Outcomes

  /** One row of the hop table. */
  datatype Hop = Hop(
    pathid: int,
    hopCount: int,
    hostname: string,
    protocol: string,
    lookup: string,
    vrf: string,
    mtu: int,
    oif: string,
    iif: string,
    mtuMatch: bool,
    overlay: bool)

  /** `dot` (ranked by hop count) or no layout attribute (graphviz default). */
  datatype Layout = Dot | Free

  datatype Color = Black | Green | Red

  /** The per-edge tooltip table: fields of the previous row, the MTU
      transition, and the incoming interface of the current row. */
  datatype Tooltip = Tooltip(
    protocol: string,
    lookup: string,
    vrf: string,
    mtu: string,
    oif: string,
    iif: string)

  /** How the interface link is attached: with interface names shown, as `URL`
      together with tail and head labels; otherwise as `edgeURL` on the edge
      alone, opened in the `_graphviz` target. */
  datatype EdgeLink =
    | LabelledLink(url: string, tailLabel: string, headLabel: string)
    | EdgeOnlyLink(url: string)
  {
    function Url(): string {
      match this
      case LabelledLink(url, _, _) => url
      case EdgeOnlyLink(url) => url
    }
  }

  datatype Edge = Edge(
    from: string,
    to: string,
    color: Color,
    hopLabel: string,
    tooltip: Tooltip,
    link: EdgeLink)

  /** The hosts of one hop count, for a `rank=same` subgraph. */
  datatype RankGroup = RankGroup(rank: int, hosts: seq<string>)

  /** The drawn graph. `wideNodeSep` is the `nodesep=1.0` attribute set when
      interface names are shown; `rankGroups` is empty in the free layout. */
  datatype Graph = Graph(
    layout: Layout,
    wideNodeSep: bool,
    rankGroups: seq<RankGroup>,
    nodes: seq<string>,
    edges: seq<Edge>)

  // ---------------------------------------------------------------------
  // Grouping rows by hop count
  // ---------------------------------------------------------------------

  /** The hostname column. */
  function Hostnames(rows: seq<Hop>): (r: seq<string>)
    ensures |r| == |rows|
    ensures forall i :: 0 <= i < |rows| ==> r[i] == rows[i].hostname
  {
    if |rows| == 0 then [] else [rows[0].hostname] + Hostnames(rows[1..])
  }

  /** The hop-count column. */
  function HopCounts(rows: seq<Hop>): (r: seq<int>)
    ensures |r| == |rows|
    ensures forall i :: 0 <= i < |rows| ==> r[i] == rows[i].hopCount
  {
    if |rows| == 0 then [] else [rows[0].hopCount] + HopCounts(rows[1..])
  }

  /** The hostnames of the rows with hop count `h`, in row order. */
  function HostnamesAt(rows: seq<Hop>, h: int): (r: seq<string>)
    ensures forall x :: x in r <==> exists i :: 0 <= i < |rows| && rows[i].hopCount == h && rows[i].hostname == x
  {
    if |rows| == 0 then []
    else
      var rest := HostnamesAt(rows[1..], h);
      assert forall x :: x in rest <==> exists i :: 1 <= i < |rows| && rows[i].hopCount == h && rows[i].hostname == x by {
        forall x | x in rest ensures exists i :: 1 <= i < |rows| && rows[i].hopCount == h && rows[i].hostname == x {
          var j :| 0 <= j < |rows[1..]| && rows[1..][j].hopCount == h && rows[1..][j].hostname == x;
          assert rows[j + 1] == rows[1..][j];
        }
        forall x | exists i :: 1 <= i < |rows| && rows[i].hopCount == h && rows[i].hostname == x ensures x in rest {
          var i :| 1 <= i < |rows| && rows[i].hopCount == h && rows[i].hostname == x;
          assert rows[1..][i - 1] == rows[i];
        }
      }
      if rows[0].hopCount == h then [rows[0].hostname] + rest else rest
  }

  function MinOf(xs: seq<int>): (m: int)
    requires |xs| > 0
    ensures m in xs
    ensures forall x :: x in xs ==> m <= x
  {
    if |xs| == 1 then xs[0]
    else
      var m := MinOf(xs[1..]);
      assert forall x :: x in xs ==> x == xs[0] || x in xs[1..];
      if xs[0] <= m then xs[0] else m
  }

  function RemoveAll(xs: seq<int>, v: int): (r: seq<int>)
    ensures forall x :: x in r <==> x in xs && x != v
    ensures |r| <= |xs|
    ensures v in xs ==> |r| < |xs|
  {
    if |xs| == 0 then []
    else
      var rest := RemoveAll(xs[1..], v);
      assert forall x :: x in xs ==> x == xs[0] || x in xs[1..];
      if xs[0] == v then rest else [xs[0]] + rest
  }

  /** The distinct values in ascending order (the keys of a pandas groupby). */
  function SortedDistinct(xs: seq<int>): (r: seq<int>)
    ensures forall x :: x in r <==> x in xs
    ensures forall i, j :: 0 <= i < j < |r| ==> r[i] < r[j]
    decreases |xs|
  {
    if |xs| == 0 then []
    else
      var m := MinOf(xs);
      var rest := SortedDistinct(RemoveAll(xs, m));
      assert forall x :: x in rest ==> m < x;
      [m] + rest
  }

  /** The group of hop count `h`: its distinct hostnames in row order. */
  function GroupAt(rows: seq<Hop>, h: int): (g: RankGroup)
    ensures g.rank == h
    ensures forall x :: x in g.hosts <==> exists i :: 0 <= i < |rows| && rows[i].hopCount == h && rows[i].hostname == x
    ensures forall a, b :: 0 <= a < b < |g.hosts| ==> g.hosts[a] != g.hosts[b]
  {
    RankGroup(h, Seqs.Distinct(HostnamesAt(rows, h)))
  }

  /** The distinct hop counts of the table in ascending order: the group keys
      of `df.groupby(by=['hopCount'])`. */
  function HopRanks(rows: seq<Hop>): (ranks: seq<int>)
    ensures forall h :: h in ranks <==> exists i :: 0 <= i < |rows| && rows[i].hopCount == h
    ensures forall k, l :: 0 <= k < l < |ranks| ==> ranks[k] < ranks[l]
  {
    var counts := HopCounts(rows);
    assert forall h :: h in counts <==> exists i :: 0 <= i < |rows| && rows[i].hopCount == h by {
      forall h | h in counts ensures exists i :: 0 <= i < |rows| && rows[i].hopCount == h {
        var i :| 0 <= i < |counts| && counts[i] == h;
      }
      forall h | exists i :: 0 <= i < |rows| && rows[i].hopCount == h ensures h in counts {
        var i :| 0 <= i < |rows| && rows[i].hopCount == h;
        assert counts[i] == h;
      }
    }
    SortedDistinct(counts)
  }

  function GroupsFor(rows: seq<Hop>, ranks: seq<int>): (groups: seq<RankGroup>)
    ensures |groups| == |ranks|
    ensures forall k :: 0 <= k < |ranks| ==> groups[k] == GroupAt(rows, ranks[k])
  {
    if |ranks| == 0 then [] else [GroupAt(rows, ranks[0])] + GroupsFor(rows, ranks[1..])
  }

  /** `df.groupby(by=['hopCount']).hostname.unique()`: one group per distinct
      hop count, in ascending order of hop count. */
  function HopGroups(rows: seq<Hop>): (groups: seq<RankGroup>)
    ensures |groups| == |HopRanks(rows)|
    ensures forall k :: 0 <= k < |groups| ==> groups[k] == GroupAt(rows, HopRanks(rows)[k])
  {
    GroupsFor(rows, HopRanks(rows))
  }

  // ---------------------------------------------------------------------
  // Layout decision
  // ---------------------------------------------------------------------

  function ToSet(s: seq<string>): set<string> {
    set x | x in s
  }

  /** The hostnames of the groups before position `i`. */
  function HostsBefore(groups: seq<RankGroup>, i: nat): set<string>
    requires i <= |groups|
  {
    if i == 0 then {} else HostsBefore(groups, i - 1) + ToSet(groups[i - 1].hosts)
  }

  /** Group `i` shares a hostname with an earlier group. */
  predicate Overlaps(groups: seq<RankGroup>, i: nat)
    requires i < |groups|
  {
    ToSet(groups[i].hosts) * HostsBefore(groups, i) != {}
  }

  /** The layout loop: groups are visited in ascending hop count, a group that
      shares a host with the union of the earlier ones switches to the free
      layout for good, and the loop stops after the group at position 3. So the
      layout is `dot` exactly when none of the groups at positions 0 to 3
      overlaps its predecessors. */
  method ChooseLayout(groups: seq<RankGroup>) returns (layout: Layout)
    ensures layout == Dot <==> forall i :: 0 <= i < |groups| && i <= 3 ==> !Overlaps(groups, i)
  {
    layout := Dot;
    var hostset: set<string> := {};
    var i := 0;
    while i < |groups|
      invariant 0 <= i <= |groups| && i <= 4
      invariant hostset == HostsBefore(groups, i)
      invariant layout == Dot <==> forall j :: 0 <= j < i ==> !Overlaps(groups, j)
    {
      var thisset := ToSet(groups[i].hosts);
      assert Overlaps(groups, i) <==> hostset * thisset != {};
      if hostset * thisset != {} {
        layout := Free;
      }
      hostset := hostset + thisset;
      i := i + 1;
      if i > 3 {
        break;
      }
    }
  }

  // ---------------------------------------------------------------------
  // Edges
  // ---------------------------------------------------------------------

  /** Edge colour: red on an MTU mismatch, else green when the packet arrived
      encapsulated, else black. */
  function EdgeColor(mtuMatch: bool, overlay: bool): (c: Color)
    ensures c == Red <==> !mtuMatch
    ensures c == Green <==> mtuMatch && overlay
    ensures c == Black <==> mtuMatch && !overlay
  {
    if mtuMatch then (if overlay then Green else Black) else Red
  }

  /** The link to the interfaces table filtered on the two hosts and the two
      interfaces of the hop. */
  function InterfacesUrl(namespace: string, prev: Hop, row: Hop, quote: string -> string): string {
    Strings.Join(UrlParts(namespace, prev, row, quote), "&amp;")
  }

  function UrlParts(namespace: string, prev: Hop, row: Hop, quote: string -> string): (parts: seq<string>)
    ensures |parts| == 6
  {
    ["http://localhost:8501?page=Xplore",
     "table=interfaces",
     "namespace=" + quote(namespace),
     "columns=default",
     "hostname=" + quote(prev.hostname + " " + row.hostname),
     "query=" + quote("ifname.isin([\"" + prev.oif + "\", \"" + row.iif + "\"])")]
  }

  /** The edge drawn from `prev` to `row`. */
  function MakeEdge(prev: Hop, row: Hop, namespace: string, showIfnames: bool, quote: string -> string): Edge {
    var url := InterfacesUrl(namespace, prev, row, quote);
    Edge(prev.hostname, row.hostname,
         EdgeColor(row.mtuMatch, row.overlay),
         Strings.IntToString(row.hopCount),
         Tooltip(prev.protocol, prev.lookup, prev.vrf,
                 Strings.IntToString(prev.mtu) + " -> " + Strings.IntToString(row.mtu),
                 prev.oif, row.iif),
         if showIfnames then LabelledLink(url, prev.oif, row.iif) else EdgeOnlyLink(url))
  }

  /** What an edge carries: the hop count of the current row as its label
      (readable back as that number), the MTU transition and the interfaces of
      the hop in its tooltip, a link naming the quoted namespace and the quoted
      pair of hostnames, and tail/head labels exactly when interface names are
      shown. */
  lemma MakeEdgeFields(prev: Hop, row: Hop, namespace: string, showIfnames: bool, quote: string -> string)
    ensures var e := MakeEdge(prev, row, namespace, showIfnames, quote);
            && e.from == prev.hostname && e.to == row.hostname
            && Strings.ParseInt(e.hopLabel) == Some(row.hopCount)
            && e.tooltip.protocol == prev.protocol && e.tooltip.lookup == prev.lookup
            && e.tooltip.vrf == prev.vrf && e.tooltip.oif == prev.oif && e.tooltip.iif == row.iif
            && Strings.StartsWith(e.tooltip.mtu, Strings.IntToString(prev.mtu) + " -> ")
            && Strings.ParseInt(e.tooltip.mtu[|Strings.IntToString(prev.mtu) + " -> "|..]) == Some(row.mtu)
            && Strings.Contains(e.link.Url(), "namespace=" + quote(namespace))
            && Strings.Contains(e.link.Url(), "hostname=" + quote(prev.hostname + " " + row.hostname))
            && (showIfnames <==> e.link.LabelledLink?)
            && (showIfnames ==> e.link.tailLabel == prev.oif && e.link.headLabel == row.iif)
  {
    var e := MakeEdge(prev, row, namespace, showIfnames, quote);
    Strings.ParseIntToString(row.hopCount);
    Strings.ParseIntToString(row.mtu);
    var head := Strings.IntToString(prev.mtu) + " -> ";
    assert e.tooltip.mtu[|head|..] == Strings.IntToString(row.mtu);
    var parts := UrlParts(namespace, prev, row, quote);
    Strings.JoinContainsParts(parts, "&amp;", 2);
    Strings.JoinContainsParts(parts, "&amp;", 4);
  }

  /** Row `i` continues the path of row `i - 1`: it has the same path id, so
      the builder connects it from the row just before it. */
  predicate Linked(rows: seq<Hop>, i: int) {
    1 <= i < |rows| && rows[i].pathid == rows[i - 1].pathid
  }

  /** The (previous host, current host) pair of a linked row. */
  function Key(rows: seq<Hop>, i: int): (string, string)
    requires 1 <= i < |rows|
  {
    (rows[i - 1].hostname, rows[i].hostname)
  }

  /** Row `i` is the first linked row producing its host pair. */
  predicate FirstOfKey(rows: seq<Hop>, i: int) {
    Linked(rows, i) &&
    forall j :: 1 <= j < i && Linked(rows, j) ==> Key(rows, j) != Key(rows, i)
  }

  function EdgeKeys(edges: seq<Edge>): set<(string, string)> {
    set k | 0 <= k < |edges| :: (edges[k].from, edges[k].to)
  }

  lemma EdgeKeysAppend(edges: seq<Edge>, e: Edge)
    ensures EdgeKeys(edges + [e]) == EdgeKeys(edges) + {(e.from, e.to)}
  {
    var es := edges + [e];
    forall x | x in EdgeKeys(es) ensures x in EdgeKeys(edges) + {(e.from, e.to)} {
      var k :| 0 <= k < |es| && x == (es[k].from, es[k].to);
      if k < |edges| {
        assert es[k] == edges[k];
      }
    }
    forall x | x in EdgeKeys(edges) ensures x in EdgeKeys(es) {
      var k :| 0 <= k < |edges| && x == (edges[k].from, edges[k].to);
      assert es[k] == edges[k];
    }
    assert (es[|edges|].from, es[|edges|].to) in EdgeKeys(es);
  }

  /** The host pairs of the linked rows before row `i`. */
  ghost function KeysBefore(rows: seq<Hop>, i: int): set<(string, string)>
    requires 0 <= i <= |rows|
  {
    set j | 1 <= j < i && Linked(rows, j) :: Key(rows, j)
  }

  lemma KeysBeforeStep(rows: seq<Hop>, i: int)
    requires 0 <= i < |rows|
    ensures KeysBefore(rows, i + 1) == KeysBefore(rows, i) + (if Linked(rows, i) then {Key(rows, i)} else {})
  {
    var next := KeysBefore(rows, i + 1);
    var step := KeysBefore(rows, i) + (if Linked(rows, i) then {Key(rows, i)} else {});
    forall x | x in next ensures x in step {
      var j :| 1 <= j < i + 1 && Linked(rows, j) && Key(rows, j) == x;
      if j < i {
        assert x in KeysBefore(rows, i);
      }
    }
    forall x | x in step ensures x in next {
      if x in KeysBefore(rows, i) {
        var j :| 1 <= j < i && Linked(rows, j) && Key(rows, j) == x;
        assert x in next;
      } else {
        assert Key(rows, i) in next;
      }
    }
  }

  /** A linked row is the first of its host pair exactly when that pair was
      not seen before it. */
  lemma FirstOfKeyIffUnseen(rows: seq<Hop>, i: int)
    requires 0 <= i < |rows| && Linked(rows, i)
    ensures FirstOfKey(rows, i) <==> Key(rows, i) !in KeysBefore(rows, i)
  {
    if Key(rows, i) in KeysBefore(rows, i) {
      var j :| 1 <= j < i && Linked(rows, j) && Key(rows, j) == Key(rows, i);
    }
  }

  /** `mk` applied to the rows at the given positions and the rows just
      before them. */
  function PairsAt<T>(rows: seq<Hop>, src: seq<int>, mk: (Hop, Hop) -> T): (r: seq<T>)
    requires forall k :: 0 <= k < |src| ==> 1 <= src[k] < |rows|
    ensures |r| == |src|
  {
    if |src| == 0 then []
    else PairsAt(rows, src[..|src| - 1], mk) + [mk(rows[src[|src| - 1] - 1], rows[src[|src| - 1]])]
  }

  lemma PairsAtAppend<T>(rows: seq<Hop>, src: seq<int>, i: int, mk: (Hop, Hop) -> T)
    requires forall k :: 0 <= k < |src| ==> 1 <= src[k] < |rows|
    requires 1 <= i < |rows|
    ensures PairsAt(rows, src + [i], mk) == PairsAt(rows, src, mk) + [mk(rows[i - 1], rows[i])]
  {
    assert (src + [i])[..|src|] == src;
  }

  lemma {:induction false} PairsAtIndex<T>(rows: seq<Hop>, src: seq<int>, mk: (Hop, Hop) -> T)
    requires forall k :: 0 <= k < |src| ==> 1 <= src[k] < |rows|
    ensures forall k :: 0 <= k < |src| ==> PairsAt(rows, src, mk)[k] == mk(rows[src[k] - 1], rows[src[k]])
  {
    if |src| > 0 {
      PairsAtIndex(rows, src[..|src| - 1], mk);
    }
  }

  /** The host pairs of the rows at the given positions. */
  ghost function SrcKeys(rows: seq<Hop>, src: seq<int>): set<(string, string)>
    requires forall k :: 0 <= k < |src| ==> 1 <= src[k] < |rows|
  {
    set k | 0 <= k < |src| :: Key(rows, src[k])
  }

  lemma SrcKeysAppend(rows: seq<Hop>, src: seq<int>, i: int)
    requires forall k :: 0 <= k < |src| ==> 1 <= src[k] < |rows|
    requires 1 <= i < |rows|
    ensures SrcKeys(rows, src + [i]) == SrcKeys(rows, src) + {Key(rows, i)}
  {
    var ss := src + [i];
    forall x | x in SrcKeys(rows, ss) ensures x in SrcKeys(rows, src) + {Key(rows, i)} {
      var k :| 0 <= k < |ss| && x == Key(rows, ss[k]);
      if k < |src| {
        assert ss[k] == src[k];
      }
    }
    forall x | x in SrcKeys(rows, src) ensures x in SrcKeys(rows, ss) {
      var k :| 0 <= k < |src| && x == Key(rows, src[k]);
      assert ss[k] == src[k];
    }
    assert Key(rows, ss[|src|]) in SrcKeys(rows, ss);
  }

  /** After the rows before `i`: `src` lists, in increasing order, exactly
      the rows before `i` that are first of their host pair, and `connected`
      holds their host pairs. */
  ghost predicate Scanned(rows: seq<Hop>, i: int, src: seq<int>, connected: set<(string, string)>) {
    && 0 <= i <= |rows|
    && (forall k :: 0 <= k < |src| ==> 1 <= src[k] < i)
    && (forall k :: 0 <= k < |src| ==> FirstOfKey(rows, src[k]))
    && (forall k, l :: 0 <= k < l < |src| ==> src[k] < src[l])
    && connected == KeysBefore(rows, i)
    && connected == SrcKeys(rows, src)
  }

  /** One row of the pass that links no pair leaves the listing as it is. */
  lemma ScanUnlinked(rows: seq<Hop>, i: int, src: seq<int>, connected: set<(string, string)>)
    requires Scanned(rows, i, src, connected) && i < |rows| && !Linked(rows, i)
    ensures Scanned(rows, i + 1, src, connected)
  {
    KeysBeforeStep(rows, i);
  }

  /** One row of the pass that links an already seen pair leaves the
      listing as it is. */
  lemma ScanSeen(rows: seq<Hop>, i: int, src: seq<int>, connected: set<(string, string)>)
    requires Scanned(rows, i, src, connected) && i < |rows| && Linked(rows, i) && Key(rows, i) in connected
    ensures Scanned(rows, i + 1, src, connected)
  {
    KeysBeforeStep(rows, i);
  }

  /** One row of the pass that links a new pair appends it. */
  lemma ScanNew(rows: seq<Hop>, i: int, src: seq<int>, connected: set<(string, string)>)
    requires Scanned(rows, i, src, connected) && i < |rows| && Linked(rows, i) && Key(rows, i) !in connected
    ensures Scanned(rows, i + 1, src + [i], connected + {Key(rows, i)})
  {
    KeysBeforeStep(rows, i);
    FirstOfKeyIffUnseen(rows, i);
    SrcKeysAppend(rows, src, i);
  }

  /** The single pass over the rows, generic in what is built from a linked
      row and the row before it. */
  method BuildPairs<T>(rows: seq<Hop>, mk: (Hop, Hop) -> T)
    returns (r: Result<seq<T>>, ghost src: seq<int>)
    ensures r.Err? <==> |rows| > 0 && rows[0].pathid == 0
    ensures r.Err? ==> r.error.exc == AttributeError
    ensures r.Ok? ==> forall k :: 0 <= k < |src| ==> FirstOfKey(rows, src[k])
    ensures r.Ok? ==> forall k :: 0 <= k < |src| ==> 1 <= src[k] < |rows|
    ensures r.Ok? ==> r.value == PairsAt(rows, src, mk)
    ensures r.Ok? ==> forall k, l :: 0 <= k < l < |src| ==> src[k] < src[l]
    ensures r.Ok? ==> forall i :: FirstOfKey(rows, i) ==> i in src
    ensures r.Ok? ==> SrcKeys(rows, src) == KeysBefore(rows, |rows|)
  {
    var pathid := 0;
    var prev: Option<Hop> := None;
    var connected: set<(string, string)> := {};
    var edges: seq<T> := [];
    src := [];
    var i := 0;
    while i < |rows|
      invariant Scanned(rows, i, src, connected)
      invariant i == 0 ==> pathid == 0 && prev == None
      invariant i > 0 ==> pathid == rows[i - 1].pathid && prev == Some(rows[i - 1])
      invariant i > 0 ==> rows[0].pathid != 0
      invariant edges == PairsAt(rows, src, mk)
    {
      var row := rows[i];
      if row.pathid != pathid {
        ScanUnlinked(rows, i, src, connected);
        pathid := row.pathid;
      } else if prev.None? {
        return Err(Error(AttributeError, "'NoneType' object has no attribute 'hostname'")), [];
      } else {
        var conn := (prev.value.hostname, row.hostname);
        assert Linked(rows, i) && conn == Key(rows, i);
        if conn in connected {
          ScanSeen(rows, i, src, connected);
        } else {
          ScanNew(rows, i, src, connected);
          PairsAtAppend(rows, src, i, mk);
          edges := edges + [mk(prev.value, row)];
          src := src + [i];
          connected := connected + {conn};
        }
      }
      prev := Some(row);
      i := i + 1;
    }
    FirstRowsAllListed(rows, src);
    r := Ok(edges);
  }

  /** When the listed rows are first of their host pairs and cover every host
      pair, every first-of-pair row is listed. */
  lemma FirstRowsAllListed(rows: seq<Hop>, src: seq<int>)
    requires forall k :: 0 <= k < |src| ==> 1 <= src[k] < |rows|
    requires forall k :: 0 <= k < |src| ==> FirstOfKey(rows, src[k])
    requires SrcKeys(rows, src) == KeysBefore(rows, |rows|)
    ensures forall i :: FirstOfKey(rows, i) ==> i in src
  {
    forall i | FirstOfKey(rows, i) ensures i in src {
      assert Key(rows, i) in KeysBefore(rows, |rows|);
      var k :| 0 <= k < |src| && Key(rows, src[k]) == Key(rows, i);
      FirstOfKeyUnique(rows, src[k], i);
    }
  }

  /** Two rows that are each the first of the same host pair are the same row. */
  lemma FirstOfKeyUnique(rows: seq<Hop>, a: int, b: int)
    requires FirstOfKey(rows, a) && FirstOfKey(rows, b) && Key(rows, a) == Key(rows, b)
    ensures a == b
  {
  }

  /** The single pass over the rows. `pathid` starts at 0, so a first row with
      path id 0 is taken as a continuation of a path with no previous row and
      raises, as `None.hostname` does. Otherwise the edges are exactly one per
      distinct host pair of linked rows, in order of the first row producing
      each pair (`src` gives that row), built from that row and the row
      before it. */
  method BuildEdges(rows: seq<Hop>, namespace: string, showIfnames: bool, quote: string -> string)
    returns (r: Result<seq<Edge>>, ghost src: seq<int>)
    ensures r.Err? <==> |rows| > 0 && rows[0].pathid == 0
    ensures r.Err? ==> r.error.exc == AttributeError
    ensures r.Ok? ==> |src| == |r.value|
    ensures r.Ok? ==> forall k :: 0 <= k < |src| ==> FirstOfKey(rows, src[k])
    ensures r.Ok? ==> forall k :: 0 <= k < |src| ==>
                        1 <= src[k] < |rows| &&
                        r.value[k] == MakeEdge(rows[src[k] - 1], rows[src[k]], namespace, showIfnames, quote)
    ensures r.Ok? ==> forall k, l :: 0 <= k < l < |src| ==> src[k] < src[l]
    ensures r.Ok? ==> forall i :: FirstOfKey(rows, i) ==> i in src
    ensures r.Ok? ==> EdgeKeys(r.value) == KeysBefore(rows, |rows|)
  {
    var mk := (p: Hop, row: Hop) => MakeEdge(p, row, namespace, showIfnames, quote);
    r, src := BuildPairs(rows, mk);
    if r.Ok? {
      PairsAtIndex(rows, src, mk);
      EdgeKeysOfPairs(rows, src, r.value, namespace, showIfnames, quote);
    }
  }

  lemma EdgeKeysOfPairs(rows: seq<Hop>, src: seq<int>, edges: seq<Edge>, namespace: string, showIfnames: bool, quote: string -> string)
    requires |src| == |edges|
    requires forall k :: 0 <= k < |src| ==>
               1 <= src[k] < |rows| &&
               edges[k] == MakeEdge(rows[src[k] - 1], rows[src[k]], namespace, showIfnames, quote)
    ensures EdgeKeys(edges) == SrcKeys(rows, src)
  {
    forall k | 0 <= k < |src| ensures (edges[k].from, edges[k].to) == Key(rows, src[k]) {
    }
  }

  /** Edges built from first-of-pair rows have pairwise distinct host pairs. */
  lemma FirstRowsGiveDistinctPairs(rows: seq<Hop>, src: seq<int>, edges: seq<Edge>, namespace: string, showIfnames: bool, quote: string -> string)
    requires |src| == |edges|
    requires forall k :: 0 <= k < |src| ==> FirstOfKey(rows, src[k])
    requires forall k :: 0 <= k < |src| ==>
               1 <= src[k] < |rows| &&
               edges[k] == MakeEdge(rows[src[k] - 1], rows[src[k]], namespace, showIfnames, quote)
    requires forall k, l :: 0 <= k < l < |src| ==> src[k] < src[l]
    ensures forall k, l :: 0 <= k < l < |edges| ==> (edges[k].from, edges[k].to) != (edges[l].from, edges[l].to)
  {
    forall k, l | 0 <= k < l < |edges|
      ensures (edges[k].from, edges[k].to) != (edges[l].from, edges[l].to)
    {
      assert (edges[k].from, edges[k].to) == Key(rows, src[k]);
      assert (edges[l].from, edges[l].to) == Key(rows, src[l]);
    }
  }

  /** The node list holds each hostname of the table exactly once. */
  ghost predicate NodesAreHostnames(rows: seq<Hop>, nodes: seq<string>) {
    && (forall h :: h in nodes <==> exists i :: 0 <= i < |rows| && rows[i].hostname == h)
    && (forall a, b :: 0 <= a < b < |nodes| ==> nodes[a] != nodes[b])
  }

  /** The graph's nodes: the distinct hostnames in order of first appearance. */
  function GraphNodes(rows: seq<Hop>): (nodes: seq<string>)
    ensures NodesAreHostnames(rows, nodes)
  {
    var hs := Hostnames(rows);
    assert forall h :: h in hs <==> exists i :: 0 <= i < |rows| && rows[i].hostname == h;
    Seqs.Distinct(hs)
  }

  /** Edge `e` is the one built from row `i`, the first of its host pair,
      and the row before it. */
  predicate BuiltFrom(rows: seq<Hop>, i: int, e: Edge, namespace: string, showIfnames: bool, quote: string -> string) {
    FirstOfKey(rows, i) && e == MakeEdge(rows[i - 1], rows[i], namespace, showIfnames, quote)
  }

  /** Some row is the first of its host pair and builds `e`. */
  ghost predicate HasOrigin(rows: seq<Hop>, e: Edge, namespace: string, showIfnames: bool, quote: string -> string) {
    exists i :: BuiltFrom(rows, i, e, namespace, showIfnames, quote)
  }

  /** Every linked row's host pair is drawn, and every edge is the one built
      from the first linked row with its host pair. */
  ghost predicate EdgesOfRows(rows: seq<Hop>, edges: seq<Edge>, namespace: string, showIfnames: bool, quote: string -> string) {
    && (forall i :: Linked(rows, i) ==> Key(rows, i) in EdgeKeys(edges))
    && (forall k :: 0 <= k < |edges| ==> HasOrigin(rows, edges[k], namespace, showIfnames, quote))
    && (forall k, l :: 0 <= k < l < |edges| ==> (edges[k].from, edges[k].to) != (edges[l].from, edges[l].to))
  }

  /** What `BuildEdges` promises amounts to `EdgesOfRows`. */
  lemma BuiltEdgesOfRows(rows: seq<Hop>, src: seq<int>, edges: seq<Edge>, namespace: string, showIfnames: bool, quote: string -> string)
    requires |src| == |edges|
    requires forall k :: 0 <= k < |src| ==> FirstOfKey(rows, src[k])
    requires forall k :: 0 <= k < |src| ==>
               1 <= src[k] < |rows| &&
               edges[k] == MakeEdge(rows[src[k] - 1], rows[src[k]], namespace, showIfnames, quote)
    requires forall k, l :: 0 <= k < l < |src| ==> src[k] < src[l]
    requires EdgeKeys(edges) == KeysBefore(rows, |rows|)
    ensures EdgesOfRows(rows, edges, namespace, showIfnames, quote)
  {
    forall k | 0 <= k < |edges| ensures HasOrigin(rows, edges[k], namespace, showIfnames, quote) {
      assert BuiltFrom(rows, src[k], edges[k], namespace, showIfnames, quote);
    }
    FirstRowsGiveDistinctPairs(rows, src, edges, namespace, showIfnames, quote);
    forall i | Linked(rows, i) ensures Key(rows, i) in EdgeKeys(edges) {
      assert Key(rows, i) in KeysBefore(rows, |rows|);
    }
  }

  /** The `dot` layout is chosen exactly when none of the first four hop
      groups shares a host with the groups before it. */
  ghost predicate RankedLayoutAllowed(groups: seq<RankGroup>) {
    forall i :: 0 <= i < |groups| && i <= 3 ==> !Overlaps(groups, i)
  }

  /** `build_graphviz_obj`: the layout follows `ChooseLayout` over the hop
      groups; the nodes are exactly the distinct hostnames; in the `dot` layout
      they are partitioned into one same-rank group per hop count; the edges
      are those of `BuildEdges`. */
  method BuildGraph(rows: seq<Hop>, namespace: string, showIfnames: bool, quote: string -> string)
    returns (r: Result<Graph>)
    ensures r.Err? <==> |rows| > 0 && rows[0].pathid == 0
    ensures r.Ok? ==> (r.value.layout == Dot <==> RankedLayoutAllowed(HopGroups(rows)))
    ensures r.Ok? ==> r.value.rankGroups == (if r.value.layout == Dot then HopGroups(rows) else [])
    ensures r.Ok? ==> NodesAreHostnames(rows, r.value.nodes)
    ensures r.Ok? ==> r.value.wideNodeSep == showIfnames
    ensures r.Ok? ==> EdgesOfRows(rows, r.value.edges, namespace, showIfnames, quote)
  {
    var groups := HopGroups(rows);
    var layout := ChooseLayout(groups);
    var nodes := GraphNodes(rows);
    var edges, src := BuildEdges(rows, namespace, showIfnames, quote);
    if edges.Err? {
      return Err(edges.error);
    }
    BuiltEdgesOfRows(rows, src, edges.value, namespace, showIfnames, quote);
    r := Ok(Graph(layout, showIfnames, if layout == Dot then groups else [], nodes, edges.value));
  }
}
