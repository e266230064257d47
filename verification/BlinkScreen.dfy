/** What the blinking characters put on the screen: each entry's cell shows the character its state calls for. */
module BlinkScreen {
  import opened Basics
  import opened Bytes
  import opened BlinkSpec

  const PAGE := 4096 // the page vidmap maps; a cell's character is at twice its location

  // mp1_poke at a cell
  function Poke(vmem: seq<byte>, location: word, c: byte): (after: seq<byte>)
    ensures |after| == |vmem|
  {
    if 2 * location < |vmem| then vmem[2 * location := c] else vmem
  }

  // What the tasklet draws for one entry.
  function DrawTick(e: Entry, vmem: seq<byte>): (after: seq<byte>)
    ensures |after| == |vmem|
  {
    if SignedPositive(Decrement(e.countdown)) then vmem
    else Poke(vmem, e.location, if IsOn(e) then e.offChar else e.onChar)
  }

  // The first n entries drawn, in list order.
  function DrawTicks(entries: seq<Entry>, n: nat, vmem: seq<byte>): (after: seq<byte>)
    requires n <= |entries|
    ensures |after| == |vmem|
  {
    if n == 0 then vmem else DrawTick(entries[n - 1], DrawTicks(entries, n - 1, vmem))
  }

  // Sync's conditional move tests the sign of a result that is 0 or 1, so it always draws the off character.
  function Draw(entries: seq<Entry>, vmem: seq<byte>, op: Op): (after: seq<byte>)
    ensures |after| == |vmem|
  {
    if Apply(entries, op).1 != 0 then vmem
    else
      match op
      case Add(location, onChar, _, _, _) => Poke(vmem, location, onChar)
      case Remove(_) => vmem
      case Sync(_, second) => Poke(vmem, second, Find(entries, second).value.offChar)
      case Tick => DrawTicks(entries, |entries|, vmem)
  }

  // The entries and the screen after a sequence of operations.
  function DrawAll(entries: seq<Entry>, vmem: seq<byte>, ops: seq<Op>): (r: (seq<Entry>, seq<byte>))
    ensures r.0 == ApplyAll(entries, ops) && |r.1| == |vmem|
    decreases |ops|
  {
    if ops == [] then (entries, vmem)
    else DrawAll(Apply(entries, ops[0]).0, Draw(entries, vmem, ops[0]), ops[1..])
  }

  // ----- the screen agrees with the list -----

  function CharOf(e: Entry): byte { if IsOn(e) then e.onChar else e.offChar }

  predicate Shows(vmem: seq<byte>, e: Entry) {
    2 * e.location < |vmem| && vmem[2 * e.location] == CharOf(e)
  }

  ghost predicate Apart(entries: seq<Entry>) {
    forall i, j :: 0 <= i < j < |entries| ==> entries[i].location != entries[j].location
  }

  // No two entries share a cell, and each cell shows its entry's character.
  ghost predicate Agrees(entries: seq<Entry>, vmem: seq<byte>) {
    Apart(entries) && forall i :: 0 <= i < |entries| ==> Shows(vmem, entries[i])
  }

  // An add that succeeds is at a cell that has no entry yet.
  predicate AddsApart(entries: seq<Entry>, op: Op) {
    op.Add? && Apply(entries, op).1 == 0 ==> Find(entries, op.location) == None
  }

  // Sync's drawing is right when its entry is off afterwards, or its two characters are the same.
  predicate SyncDrawsRight(entries: seq<Entry>, op: Op) {
    op.Sync? && Apply(entries, op).1 == 0 ==>
      var e := SameTiming(Find(entries, op.first).value, Find(entries, op.second).value);
      !IsOn(e) || e.onChar == e.offChar
  }

  lemma {:induction false} DrawnSoFar(entries: seq<Entry>, n: nat, vmem: seq<byte>)
    requires Agrees(entries, vmem) && n <= |entries|
    ensures forall i :: 0 <= i < n ==> Shows(DrawTicks(entries, n, vmem), TickEntry(entries[i]))
    ensures forall i :: n <= i < |entries| ==> Shows(DrawTicks(entries, n, vmem), entries[i])
  {
    if n == 0 {
    } else {
      DrawnSoFar(entries, n - 1, vmem);
    }
  }

  lemma AgreesRest(entries: seq<Entry>, vmem: seq<byte>)
    requires Agrees(entries, vmem) && entries != []
    ensures Agrees(entries[1..], vmem) && Shows(vmem, entries[0])
    ensures forall e :: e in entries[1..] ==> e.location != entries[0].location
  {}

  lemma {:induction false} RemoveAgrees(entries: seq<Entry>, vmem: seq<byte>, location: word)
    requires Agrees(entries, vmem)
    ensures Agrees(RemoveFirst(entries, location), vmem)
    ensures forall e :: e in RemoveFirst(entries, location) ==> e in entries
  {
    if entries == [] {
    } else {
      AgreesRest(entries, vmem);
      RemoveAgrees(entries[1..], vmem, location);
    }
  }

  // Replacing the entry at a cell replaces one element, and nothing before it has that cell.
  lemma {:induction false} UpdatedAt(entries: seq<Entry>, location: word, e: Entry) returns (k: nat)
    requires Find(entries, location).Some?
    ensures k < |entries| && entries[k].location == location && UpdateFirst(entries, location, e) == entries[k := e]
  {
    if entries[0].location == location {
      k := 0;
    } else {
      k := UpdatedAt(entries[1..], location, e);
      k := k + 1;
    }
  }

  lemma UpdateAgrees(entries: seq<Entry>, vmem: seq<byte>, location: word, e: Entry, c: byte)
    requires Agrees(entries, vmem) && Find(entries, location).Some? && e.location == location
    ensures Agrees(UpdateFirst(entries, location, e), Poke(vmem, location, c)) <==> CharOf(e) == c
  {
    var k := UpdatedAt(entries, location, e);
    var after, drawn := entries[k := e], Poke(vmem, location, c);
    assert Shows(vmem, entries[k]);
    assert Shows(drawn, e) <==> CharOf(e) == c;
    assert Apart(after);
    assert forall i :: 0 <= i < |after| && i != k ==>
      after[i] == entries[i] && Shows(vmem, entries[i]) && Shows(drawn, after[i]);
    assert after[k] == e;
  }

  lemma ConsApart(e: Entry, entries: seq<Entry>)
    requires Apart(entries) && forall i :: 0 <= i < |entries| ==> entries[i].location != e.location
    ensures Apart([e] + entries)
  {}

  lemma AddAgrees(entries: seq<Entry>, vmem: seq<byte>, op: Op)
    requires Agrees(entries, vmem) && |vmem| == PAGE && op.Add? && Apply(entries, op).1 == 0
    ensures Agrees([NewEntry(op)] + entries, Poke(vmem, op.location, op.onChar)) <==>
      forall i :: 0 <= i < |entries| ==> entries[i].location != op.location
  {
    var e, after, drawn := NewEntry(op), [NewEntry(op)] + entries, Poke(vmem, op.location, op.onChar);
    assert after[0] == e && forall i :: 0 <= i < |entries| ==> after[i + 1] == entries[i];
    assert Shows(drawn, e);
    if i :| 0 <= i < |entries| && entries[i].location == op.location {
      assert after[0].location == after[i + 1].location;
    } else {
      forall k | 0 <= k < |after| ensures Shows(drawn, after[k]) {
        if k > 0 { assert Shows(vmem, entries[k - 1]) && after[k] == entries[k - 1]; }
      }
      ConsApart(e, entries);
    }
  }

  /** After an operation every entry has a cell of its own that shows the character its state calls for, if and only
    * if the operation is neither an add at a cell that is taken nor a sync that leaves its entry on with two
    * different characters. */
  lemma DrawAgrees(entries: seq<Entry>, vmem: seq<byte>, op: Op)
    requires Agrees(entries, vmem) && |vmem| == PAGE
    ensures Agrees(Apply(entries, op).0, Draw(entries, vmem, op)) <==>
      AddsApart(entries, op) && SyncDrawsRight(entries, op)
  {
    match op
    case Add(location, _, _, _, _) =>
      FindAt(entries, location);
      if Apply(entries, op).1 == 0 { AddAgrees(entries, vmem, op); }
    case Remove(location) => RemoveAgrees(entries, vmem, location);
    case Sync(first, second) =>
      if Apply(entries, op).1 == 0 {
        FindLocation(entries, second);
        var b := Find(entries, second).value;
        var e := SameTiming(Find(entries, first).value, b);
        UpdateAgrees(entries, vmem, second, e, b.offChar);
      }
    case Tick => DrawnSoFar(entries, |entries|, vmem);
  }

  // Nothing else on the page changes: attributes, and cells of no entry.
  predicate Owned(entries: seq<Entry>, at: nat) {
    exists i :: 0 <= i < |entries| && at == 2 * entries[i].location
  }

  lemma {:induction false} TicksDrawOwned(entries: seq<Entry>, n: nat, vmem: seq<byte>, at: nat)
    requires n <= |entries| && at < |vmem| && !Owned(entries, at)
    ensures DrawTicks(entries, n, vmem)[at] == vmem[at]
  {
    if n == 0 {
    } else {
      TicksDrawOwned(entries, n - 1, vmem, at);
    }
  }

  lemma DrawsOwned(entries: seq<Entry>, vmem: seq<byte>, op: Op, at: nat)
    requires at < |vmem| && !Owned(entries, at) && (op.Add? ==> at != 2 * op.location)
    ensures Draw(entries, vmem, op)[at] == vmem[at]
  {
    match op
    case Sync(_, second) =>
      FindLocation(entries, second);
      FindAt(entries, second);
    case Tick => TicksDrawOwned(entries, |entries|, vmem, at);
    case _ =>
  }

  // No operation adds at the location.
  predicate NoneAdded(ops: seq<Op>, location: word) {
    forall i :: 0 <= i < |ops| && ops[i].Add? ==> ops[i].location != location
  }

  // ----- whole runs -----

  // No operation of the run is an add at a taken cell or a sync that draws wrongly.
  ghost predicate AllFit(entries: seq<Entry>, ops: seq<Op>)
    decreases |ops|
  {
    ops == [] ||
    (AddsApart(entries, ops[0]) && SyncDrawsRight(entries, ops[0]) && AllFit(Apply(entries, ops[0]).0, ops[1..]))
  }

  // The screen agrees with the list at every moment of the run.
  ghost predicate AgreesAlong(entries: seq<Entry>, vmem: seq<byte>, ops: seq<Op>)
    decreases |ops|
  {
    Agrees(entries, vmem) &&
    (ops == [] || AgreesAlong(Apply(entries, ops[0]).0, Draw(entries, vmem, ops[0]), ops[1..]))
  }

  /** The screen agrees with the list at every moment of a run if and only if no operation of it is an add at a taken
    * cell or a sync that draws wrongly; and then it does at the end. */
  lemma {:induction false} RunAgreesExactly(entries: seq<Entry>, vmem: seq<byte>, ops: seq<Op>)
    requires Agrees(entries, vmem) && |vmem| == PAGE
    ensures AgreesAlong(entries, vmem, ops) <==> AllFit(entries, ops)
    ensures AllFit(entries, ops) ==> Agrees(DrawAll(entries, vmem, ops).0, DrawAll(entries, vmem, ops).1)
    decreases |ops|
  {
    if ops == [] {
    } else {
      DrawAgrees(entries, vmem, ops[0]);
      var next, drawn := Apply(entries, ops[0]).0, Draw(entries, vmem, ops[0]);
      hide Agrees, AddsApart, SyncDrawsRight, Apply, Draw;
      if Agrees(next, drawn) { RunAgreesExactly(next, drawn, ops[1..]); }
    }
  }

  lemma {:induction false} FoundIsIn(entries: seq<Entry>, location: word)
    ensures Find(entries, location).Some? ==> Find(entries, location).value in entries
  {
    if entries == [] {
    } else {
      FoundIsIn(entries[1..], location);
    }
  }

  lemma EntryShows(entries: seq<Entry>, vmem: seq<byte>, e: Entry)
    requires Agrees(entries, vmem) && e in entries
    ensures Shows(vmem, e)
  {}

  lemma AddedCell(entries: seq<Entry>, vmem: seq<byte>, add: Op, ops: seq<Op>)
    requires Agrees(entries, vmem) && |vmem| == PAGE && add.Add? && Apply(entries, add).1 == 0 &&
      Leaves(ops, add.location)
    requires AllFit(entries, [add] + ops)
    ensures Shows(DrawAll(entries, vmem, [add] + ops).1, Ticked(NewEntry(add), Ticks(ops)))
  {
    var start := [NewEntry(add)] + entries;
    assert ([add] + ops)[1..] == ops;
    RunAgreesExactly(entries, vmem, [add] + ops);
    EntryKeepsTime(start, add.location, ops);
    FoundIsIn(ApplyAll(start, ops), add.location);
    hide Agrees, AllFit, Leaves, Ticked, Ticks, Shows;
    var (last, drawn) := DrawAll(entries, vmem, [add] + ops);
    assert last == ApplyAll(start, ops);
    EntryShows(last, drawn, Find(last, add.location).value);
  }

  lemma {:induction false} CharsKept(e: Entry, n: nat)
    ensures var t := Ticked(e, n); t.onChar == e.onChar && t.offChar == e.offChar && t.location == e.location
  {
    if n == 0 {
    } else {
      CharsKept(e, n - 1);
    }
  }

  lemma CharInPart(e: Entry, n: nat)
    requires JustAdded(e)
    ensures CharOf(Ticked(e, n)) == if InOnPart(n, e.onLength, e.offLength) then e.onChar else e.offChar
    ensures Ticked(e, n).location == e.location
  {
    OnExactly(e, n);
    CharsKept(e, n);
  }

  /** What the user sees: from its add on, an entry's cell shows its first character exactly when the number of ticks
    * since then, modulo the period of its two lengths, lies in the on part, and its second character otherwise. */
  lemma AddedShows(entries: seq<Entry>, vmem: seq<byte>, add: Op, ops: seq<Op>)
    requires Agrees(entries, vmem) && |vmem| == PAGE && add.Add? && Apply(entries, add).1 == 0 &&
      Leaves(ops, add.location)
    requires AllFit(entries, [add] + ops)
    ensures 2 * add.location < |vmem|
    ensures DrawAll(entries, vmem, [add] + ops).1[2 * add.location] ==
      if InOnPart(Ticks(ops), add.onLength, add.offLength) then add.onChar else add.offChar
  {
    hide InOnPart, Agrees, AllFit, Leaves, Ticked, Ticks, DrawAll, Apply, Lasts;
    AddedCell(entries, vmem, add, ops);
    CharInPart(NewEntry(add), Ticks(ops));
  }

  lemma StaysFree(entries: seq<Entry>, vmem: seq<byte>, location: word, op: Op)
    requires Find(entries, location) == None && (op.Add? ==> op.location != location) && 2 * location < |vmem|
    ensures Find(Apply(entries, op).0, location) == None
    ensures Draw(entries, vmem, op)[2 * location] == vmem[2 * location]
  {
    FindAt(entries, location);
    FindAt(Apply(entries, op).0, location);
    assert !Owned(entries, 2 * location);
    DrawsOwned(entries, vmem, op, 2 * location);
    match op
    case Remove(l) => AtFirst(entries, l);
    case Sync(_, second) => AtFirst(entries, second); if Apply(entries, op).1 == 0 {
      UpdateAtFirst(entries, second, SameTiming(Find(entries, op.first).value, Find(entries, second).value));
    }
    case _ =>
  }

  lemma {:induction false} FreeCellKept(entries: seq<Entry>, vmem: seq<byte>, location: word, ops: seq<Op>)
    requires Find(entries, location) == None && NoneAdded(ops, location) && 2 * location < |vmem|
    ensures Find(DrawAll(entries, vmem, ops).0, location) == None
    ensures DrawAll(entries, vmem, ops).1[2 * location] == vmem[2 * location]
    decreases |ops|
  {
    if ops == [] {
    } else {
      StaysFree(entries, vmem, location, ops[0]);
      assert NoneAdded(ops[1..], location);
      FreeCellKept(Apply(entries, ops[0]).0, Draw(entries, vmem, ops[0]), location, ops[1..]);
    }
  }

  /** What has been removed stops blinking: where no two entries share a cell, neither the remove nor anything after it
    * writes the cell again, until something is added there. */
  lemma RemovedStaysDark(entries: seq<Entry>, vmem: seq<byte>, location: word, ops: seq<Op>)
    requires Apart(entries) && Apply(entries, Remove(location)).1 == 0
    requires NoneAdded(ops, location) && 2 * location < |vmem|
    ensures var (after, drawn) := DrawAll(entries, vmem, [Remove(location)] + ops);
      (forall i :: 0 <= i < |after| ==> after[i].location != location) && drawn[2 * location] == vmem[2 * location]
  {
    var k := FirstAt(entries, location);
    AtFirst(entries, location);
    RemoveExactly(entries, location, k);
    var left := Apply(entries, Remove(location)).0;
    assert ([Remove(location)] + ops)[1..] == ops;
    FreeCellKept(left, vmem, location, ops);
    FindAt(DrawAll(left, vmem, ops).0, location);
  }
}
