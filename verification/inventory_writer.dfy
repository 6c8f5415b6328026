/** The writer of the polled-nodes table
    (suzieq/poller/controller/utils/inventory_writer.py): each new inventory
    is reduced to namespace, address and port per device, compared with the
    previous one, and only the difference is written, additions marked
    active and deletions inactive.

  Reading the stored table, the output queue and the clock are not
  modelled: the stored rows, the time stamp and the schema version are
  parameters, and the written batch is returned.

  The source annotates the added rows in place, so the rows it remembers as
  the previous inventory carry the annotations; every later write then sees
  them as changed. The flag `fixed` selects remembering the plain rows.
 */
module InventoryWriter {

  import opened Outcomes
  import opened PyValues

  /** The keys of a projected row (lines 56-62). */
  const NodeKeys: set<string> := {"namespace", "address", "port"}

  /** The row of one device: its namespace, address and port. A device that
      is not a dictionary raises `TypeError`, one lacking a key `KeyError`. */
  function Project(device: Value): (r: Result<Dict>)
    ensures r.Ok? <==> device.VDict? && NodeKeys <= device.entries.Keys
    ensures r.Ok? ==> r.value.Keys == NodeKeys && forall k :: k in NodeKeys ==> r.value[k] == device.entries[k]
    ensures r.Err? ==> r.error.exc == (if device.VDict? then KeyError else TypeError)
  {
    if !device.VDict? then Err(Error(TypeError, "object is not subscriptable"))
    else if "namespace" !in device.entries then Err(Error(KeyError, "'namespace'"))
    else if "address" !in device.entries then Err(Error(KeyError, "'address'"))
    else if "port" !in device.entries then Err(Error(KeyError, "'port'"))
    else
      var d := device.entries;
      Ok(map["namespace" := d["namespace"], "address" := d["address"], "port" := d["port"]])
  }

  /** The elements of `xs` that are not in `ys`, in their order. */
  function Without<T(==,!new)>(xs: seq<T>, ys: seq<T>): (r: seq<T>)
    ensures forall x :: x in r <==> x in xs && x !in ys
    decreases |xs|
  {
    if xs == [] then []
    else
      assert xs == [xs[0]] + xs[1..];
      (if xs[0] in ys then [] else [xs[0]]) + Without(xs[1..], ys)
  }

  /** Filtering keeps every copy of the elements it keeps and no copy of
      the others. */
  lemma {:induction false} WithoutCounts<T(!new)>(xs: seq<T>, ys: seq<T>, x: T)
    ensures multiset(Without(xs, ys))[x] == if x in ys then 0 else multiset(xs)[x]
    decreases |xs|
  {
    if xs != [] {
      WithoutCounts(xs[1..], ys, x);
      assert xs == [xs[0]] + xs[1..];
    }
  }

  /** Filtering keeps the order: an element appended to `xs` is appended
      to the result, unless it is in `ys`. */
  lemma {:induction false} WithoutAppend<T(!new)>(xs: seq<T>, x: T, ys: seq<T>)
    ensures Without(xs + [x], ys) == Without(xs, ys) + (if x in ys then [] else [x])
    decreases |xs|
  {
    if xs != [] {
      assert (xs + [x])[1..] == xs[1..] + [x];
      WithoutAppend(xs[1..], x, ys);
      var head := if xs[0] in ys then [] else [xs[0]];
      var rest := Without(xs[1..], ys);
      var tail := if x in ys then [] else [x];
      assert head + (rest + tail) == (head + rest) + tail;
    } else {
      assert xs + [x] == [x];
    }
  }

  /** `_get_diff` (lines 108-111): the rows of the new inventory not in the
      previous one, and the rows of the previous one not in the new one. */
  function GetDiff<T(==,!new)>(inventory: seq<T>, prev: seq<T>): (r: (seq<T>, seq<T>))
    ensures forall x :: x in r.0 <==> x in inventory && x !in prev
    ensures forall x :: x in r.1 <==> x in prev && x !in inventory
    ensures r.0 == [] && r.1 == [] <==>
              (forall x :: x in inventory ==> x in prev) && (forall x :: x in prev ==> x in inventory)
  {
    var adds := Without(inventory, prev);
    var dels := Without(prev, inventory);
    assert adds == [] <==> forall x :: x in inventory ==> x in prev by {
      if adds != [] { assert adds[0] in adds; }
    }
    assert dels == [] <==> forall x :: x in prev ==> x in inventory by {
      if dels != [] { assert dels[0] in dels; }
    }
    (adds, dels)
  }

  /** A row with the schema version, the active flag and the time stamp
      added (lines 68-79). */
  function Annotate(row: Dict, version: Value, active: bool, now: int): (r: Dict)
    ensures r.Keys == row.Keys + {"sqvers", "active", "timestamp"}
    ensures r["sqvers"] == version && r["active"] == VBool(active) && r["timestamp"] == VInt(now)
    ensures forall k :: k in row && k !in {"sqvers", "active", "timestamp"} ==> r[k] == row[k]
  {
    row["sqvers" := version]["active" := VBool(active)]["timestamp" := VInt(now)]
  }

  /** Every row of `rows` annotated alike. */
  function AnnotateAll(rows: seq<Dict>, version: Value, active: bool, now: int): (r: seq<Dict>)
    ensures |r| == |rows| && forall i :: 0 <= i < |rows| ==> r[i] == Annotate(rows[i], version, active, now)
  {
    seq(|rows|, i requires 0 <= i < |rows| => Annotate(rows[i], version, active, now))
  }

  /** The batch written (lines 80-82): the additions marked active, then
      the deletions marked inactive, all with the same version and time
      stamp. */
  function Batch(adds: seq<Dict>, dels: seq<Dict>, version: Value, now: int): (b: seq<Dict>)
    ensures |b| == |adds| + |dels|
    ensures forall i :: 0 <= i < |adds| ==> b[i] == Annotate(adds[i], version, true, now)
    ensures forall i :: 0 <= i < |dels| ==> b[|adds| + i] == Annotate(dels[i], version, false, now)
    ensures forall i :: 0 <= i < |b| ==>
              && {"sqvers", "active", "timestamp"} <= b[i].Keys
              && b[i]["sqvers"] == version && b[i]["timestamp"] == VInt(now)
              && b[i]["active"] == VBool(i < |adds|)
  {
    AnnotateAll(adds, version, true, now) + AnnotateAll(dels, version, false, now)
  }

  /** The new inventory as the source remembers it: the added rows were
      annotated in place, the others are as projected. */
  function MarkAdds(inventory: seq<Dict>, prev: seq<Dict>, version: Value, now: int): (r: seq<Dict>)
    ensures |r| == |inventory|
    ensures forall i :: 0 <= i < |inventory| ==>
              r[i] == if inventory[i] in prev then inventory[i] else Annotate(inventory[i], version, true, now)
  {
    seq(|inventory|, i requires 0 <= i < |inventory| =>
      if inventory[i] in prev then inventory[i] else Annotate(inventory[i], version, true, now))
  }

  /** The writer's state: the previous inventory, once loaded, and the
      schema version of the table. */
  datatype Writer = Writer(prev: Option<seq<Dict>>, version: Value)

  /** The previous inventory a write compares against: the remembered one,
      or else the stored rows, read on the first write only (lines 54-55). */
  function Previous(w: Writer, stored: seq<Dict>): seq<Dict> {
    if w.prev.Some? then w.prev.value else stored
  }

  /** `write` (lines 46-83). The new inventory is given as the devices of
      the inventory in order, `stored` is what reading the table would give,
      `now` the time stamp in milliseconds. The result is the writer's new
      state and the batch written, empty when nothing changed; an exception
      still leaves the previous inventory loaded. */
  function Write(w: Writer, devices: seq<Value>, stored: seq<Dict>, now: int, fixed: bool): (r: (Writer, Result<seq<Dict>>))
    ensures r.0.version == w.version && r.0.prev.Some?
    ensures r.1.Err? <==> exists i :: 0 <= i < |devices| && Project(devices[i]).Err?
    ensures r.1.Err? ==> r.0.prev == Some(Previous(w, stored))
    ensures r.1.Ok? ==>
              var inventory := MapAll(devices, Project).value;
              var prev := Previous(w, stored);
              var diff := GetDiff(inventory, prev);
              if diff.0 == [] && diff.1 == [] then r.0.prev == Some(prev) && r.1.value == []
              else
                && r.1.value == Batch(diff.0, diff.1, w.version, now)
                && r.0.prev == Some(if fixed then inventory else MarkAdds(inventory, prev, w.version, now))
  {
    var prev := Previous(w, stored);
    var loaded := w.(prev := Some(prev));
    var projected := MapAll(devices, Project);
    if projected.Err? then (loaded, Err(projected.error))
    else
      var inventory := projected.value;
      var (adds, dels) := GetDiff(inventory, prev);
      if adds == [] && dels == [] then (loaded, Ok([]))
      else
        var batch := Batch(adds, dels, w.version, now);
        var remembered := if fixed then inventory else MarkAdds(inventory, prev, w.version, now);
        (w.(prev := Some(remembered)), Ok(batch))
  }

  /** A projected row never has an `active` key, so it differs from every
      annotated row. */
  lemma ProjectedNotAnnotated(devices: seq<Value>, x: Dict)
    requires MapAll(devices, Project).Ok?
    requires "active" in x
    ensures x !in MapAll(devices, Project).value
  {
    var inventory := MapAll(devices, Project).value;
    assert "active" !in NodeKeys;
    forall i | 0 <= i < |inventory| ensures inventory[i] != x {
      assert Project(devices[i]) == Ok(inventory[i]);
    }
  }

  /** An added row is remembered annotated, and the annotated row is not
      a row of the inventory. */
  lemma AnnotatedAddRemembered(inventory: seq<Dict>, prev: seq<Dict>, version: Value, now: int, x: Dict)
      returns (y: Dict)
    requires x in inventory && x !in prev
    ensures y in MarkAdds(inventory, prev, version, now) && "active" in y
  {
    var i :| 0 <= i < |inventory| && inventory[i] == x;
    y := Annotate(x, version, true, now);
    assert MarkAdds(inventory, prev, version, now)[i] == y;
  }

  /** As written, once a write adds a row, writing the same devices again
      writes once more: the annotated copy the writer remembers is deleted,
      although nothing changed. */
  lemma AsWrittenRewrites(w: Writer, devices: seq<Value>, stored: seq<Dict>, now: int, now': int)
    requires Write(w, devices, stored, now, false).1.Ok?
    requires GetDiff(MapAll(devices, Project).value, Previous(w, stored)).0 != []
    ensures var w' := Write(w, devices, stored, now, false).0;
            && Write(w', devices, stored, now', false).1.Ok?
            && Write(w', devices, stored, now', false).1.value != []
  {
    var inventory := MapAll(devices, Project).value;
    var prev := Previous(w, stored);
    var adds := GetDiff(inventory, prev).0;
    assert adds[0] in adds;
    var y := AnnotatedAddRemembered(inventory, prev, w.version, now, adds[0]);
    ProjectedNotAnnotated(devices, y);
    assert y in GetDiff(inventory, MarkAdds(inventory, prev, w.version, now)).1;
  }

  /** With the correction, a write followed by a write of the same devices
      writes nothing the second time and keeps the state. */
  lemma FixedIdempotent(w: Writer, devices: seq<Value>, stored: seq<Dict>, now: int, now': int)
    requires Write(w, devices, stored, now, true).1.Ok?
    ensures var w' := Write(w, devices, stored, now, true).0;
            && Write(w', devices, stored, now', true).1 == Ok([])
            && Write(w', devices, stored, now', true).0 == w'
  {
    var inventory := MapAll(devices, Project).value;
    var w' := Write(w, devices, stored, now, true).0;
    var prev := Previous(w, stored);
    var (adds, dels) := GetDiff(inventory, prev);
    if adds != [] || dels != [] {
      assert w'.prev == Some(inventory);
    }
    var (adds', dels') := GetDiff(inventory, Previous(w', stored));
    assert adds' == [] && dels' == [];
  }
}
