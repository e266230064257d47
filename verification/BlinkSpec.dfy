/** The blinking characters of fish/blink.S as a plain list of entries: what add, remove, sync and the clock tick
  * mean, and when an entry is on. */
module BlinkSpec {
  import opened Basics
  import opened Bytes
  import Console

  type word = x: int | 0 <= x < 0x1_0000

  datatype Entry = Entry(
    location: word, onChar: byte, offChar: byte,
    onLength: word, offLength: word, countdown: word, status: word)

  // ----- one tick of one entry -----

  // decw, then jg on the signed 16-bit result.
  function Decrement(x: word): word { if x == 0 then 0xFFFF else x - 1 }

  predicate SignedPositive(x: word) { 0 < x < 0x8000 }

  predicate IsOn(e: Entry) { e.status % 2 == 1 }

  function TickEntry(e: Entry): Entry {
    var left := Decrement(e.countdown);
    if SignedPositive(left) then e.(countdown := left)
    else if IsOn(e) then e.(countdown := e.offLength, status := e.status - 1)
    else e.(countdown := e.onLength, status := e.status + 1)
  }

  function Ticked(e: Entry, n: nat): Entry {
    if n == 0 then e else TickEntry(Ticked(e, n - 1))
  }

  // How an entry is left by add.
  predicate JustAdded(e: Entry) { e.status == 1 && e.countdown == e.onLength }

  // Ticks a length really lasts: beyond the signed range, and at zero, the first decrement already ends it.
  function Lasts(length: word): nat
    ensures Lasts(length) >= 1
  {
    if 1 <= length <= 0x8000 then length else 1
  }

  lemma Remainder(q: int, r: int, period: int)
    requires 0 <= q && 0 <= r < period
    ensures (q * period + r) % period == r
  {
    var v := q * period + r;
    var p, s := v / period, v % period;
    assert v == period * p + s;
    assert (p - q) * period == r - s;
    assert p - q >= 1 ==> (p - q) * period >= period;
    assert p - q <= -1 ==> (p - q) * period <= -period;
  }

  lemma NextModulo(n: nat, period: nat)
    requires period > 0
    ensures (n + 1) % period == (if n % period + 1 == period then 0 else n % period + 1)
  {
    var q, r := n / period, n % period;
    assert n == period * q + r;
    if r + 1 == period {
      Remainder(q + 1, 0, period);
      assert n + 1 == (q + 1) * period + 0;
    } else {
      Remainder(q, r + 1, period);
      assert n + 1 == q * period + (r + 1);
    }
  }

  lemma {:induction false} Phase(e: Entry, n: nat)
    requires JustAdded(e)
    ensures var t := Ticked(e, n);
      var on, period := Lasts(e.onLength), Lasts(e.onLength) + Lasts(e.offLength);
      var m := n % period;
      && t.onLength == e.onLength && t.offLength == e.offLength && t.location == e.location
      && t.status == (if m < on then 1 else 0)
      && Lasts(t.countdown) == (if m < on then on - m else period - m)
  {
    if n == 0 {
    } else {
      Phase(e, n - 1);
      NextModulo(n - 1, Lasts(e.onLength) + Lasts(e.offLength));
    }
  }

  // Tick n of an entry, modulo the period of the two lengths as they really last, lies in the on part.
  predicate InOnPart(n: nat, onLength: word, offLength: word) {
    n % (Lasts(onLength) + Lasts(offLength)) < Lasts(onLength)
  }

  /** The closed form, for all 16-bit lengths: n ticks after it was added an entry is on exactly when n lies in the
    * on part. */
  lemma OnExactly(e: Entry, n: nat)
    requires JustAdded(e)
    ensures IsOn(Ticked(e, n)) <==> InOnPart(n, e.onLength, e.offLength)
  {
    Phase(e, n);
  }

  // The same with the lengths as the user wrote them.
  predicate OnByLengths(e: Entry, n: nat) {
    e.onLength + e.offLength > 0 && n % (e.onLength + e.offLength) < e.onLength
  }

  predicate Exact(length: word) { 1 <= length <= 0x8000 }

  lemma SmallModulo(n: nat, period: nat)
    requires period > 0
    ensures n < period ==> n % period == n
    ensures n == period ==> n % period == 0
  {}

  /** The lengths as written give the blinking at every tick if and only if both lie in 1..32768. */
  lemma OnByLengthsExactly(e: Entry)
    requires JustAdded(e)
    ensures (forall n: nat :: IsOn(Ticked(e, n)) <==> OnByLengths(e, n)) <==> Exact(e.onLength) && Exact(e.offLength)
  {
    if Exact(e.onLength) && Exact(e.offLength) {
      forall n: nat ensures IsOn(Ticked(e, n)) <==> OnByLengths(e, n) { OnExactly(e, n); }
    } else {
      var on: int, off: int := e.onLength, e.offLength;
      var n: nat := if on == 0 then 0 else if on > 0x8000 then 1 else if off == 0 then on else on + 1;
      OnExactly(e, n);
      SmallModulo(n, Lasts(on) + Lasts(off));
      if on > 0 { SmallModulo(n, on + off); }
      assert IsOn(Ticked(e, n)) != OnByLengths(e, n);
    }
  }

  // ----- the list -----

  function Find(entries: seq<Entry>, location: word): Option<Entry> {
    if entries == [] then None
    else if entries[0].location == location then Some(entries[0])
    else Find(entries[1..], location)
  }

  // Removes the first entry at the location and keeps the order of the rest.
  function RemoveFirst(entries: seq<Entry>, location: word): seq<Entry> {
    if entries == [] then []
    else if entries[0].location == location then entries[1..]
    else [entries[0]] + RemoveFirst(entries[1..], location)
  }

  function UpdateFirst(entries: seq<Entry>, location: word, e: Entry): seq<Entry> {
    if entries == [] then []
    else if entries[0].location == location then [e] + entries[1..]
    else [entries[0]] + UpdateFirst(entries[1..], location, e)
  }

  function TickAll(entries: seq<Entry>): (ticked: seq<Entry>)
    ensures |ticked| == |entries| && forall i :: 0 <= i < |entries| ==> ticked[i] == TickEntry(entries[i])
  {
    if entries == [] then [] else [TickEntry(entries[0])] + TickAll(entries[1..])
  }

  // The timing fields that sync copies.
  function SameTiming(from: Entry, to: Entry): Entry {
    to.(onLength := from.onLength, offLength := from.offLength, countdown := from.countdown, status := from.status)
  }

  datatype Op =
    | Add(location: word, onChar: byte, offChar: byte, onLength: word, offLength: word)
    | Remove(from: word)
    | Sync(first: word, second: word)
    | Tick

  function NewEntry(op: Op): Entry
    requires op.Add?
  {
    Entry(op.location, op.onChar, op.offChar, op.onLength, op.offLength, op.onLength, 1)
  }

  // The new list and what the ioctl returns.
  function Apply(entries: seq<Entry>, op: Op): (seq<Entry>, int) {
    match op
    case Add(location, _, _, _, _) =>
      if location >= Console.CELLS || |entries| >= Console.CELLS then (entries, -1) else ([NewEntry(op)] + entries, 0)
    case Remove(location) =>
      if Find(entries, location) == None then (entries, -1) else (RemoveFirst(entries, location), 0)
    case Sync(first, second) =>
      var a, b := Find(entries, first), Find(entries, second);
      if a == None || b == None then (entries, -1)
      else (UpdateFirst(entries, second, SameTiming(a.value, b.value)), 0)
    case Tick => (TickAll(entries), 0)
  }

  // ----- the operations, said by index -----

  ghost function FirstAt(entries: seq<Entry>, location: word): (k: nat)
    ensures k <= |entries|
    ensures k < |entries| ==> entries[k].location == location
    ensures forall i :: 0 <= i < k ==> entries[i].location != location
  {
    if entries == [] || entries[0].location == location then 0 else 1 + FirstAt(entries[1..], location)
  }

  lemma WithoutLater(s: seq<Entry>, k: nat)
    requires k + 1 < |s|
    ensures [s[0]] + (s[1..][..k] + s[1..][k + 1..]) == s[..k + 1] + s[k + 2..]
  {}

  lemma {:induction false} AtFirst(entries: seq<Entry>, location: word)
    ensures var k := FirstAt(entries, location);
      if k < |entries| then
        && Find(entries, location) == Some(entries[k])
        && RemoveFirst(entries, location) == entries[..k] + entries[k + 1..]
      else Find(entries, location) == None
  {
    if entries == [] || entries[0].location == location {
      assert FirstAt(entries, location) == 0;
    } else {
      var rest := entries[1..];
      AtFirst(rest, location);
      var k := FirstAt(rest, location);
      assert FirstAt(entries, location) == k + 1 && Find(entries, location) == Find(rest, location);
      assert RemoveFirst(entries, location) == [entries[0]] + RemoveFirst(rest, location);
      hide Find, RemoveFirst, FirstAt;
      if k < |rest| { WithoutLater(entries, k); }
    }
  }

  lemma {:induction false} UpdateAtFirst(entries: seq<Entry>, location: word, e: Entry)
    requires FirstAt(entries, location) < |entries|
    ensures UpdateFirst(entries, location, e) == entries[FirstAt(entries, location) := e]
  {
    if entries[0].location == location {
    } else {
      UpdateAtFirst(entries[1..], location, e);
    }
  }

  lemma FirstAtIs(entries: seq<Entry>, location: word, k: nat)
    requires k <= |entries| && (forall i :: 0 <= i < k ==> entries[i].location != location)
    requires k < |entries| ==> entries[k].location == location
    ensures FirstAt(entries, location) == k
  {}

  lemma {:induction false} FindAt(entries: seq<Entry>, location: word)
    ensures Find(entries, location) == None <==> forall i :: 0 <= i < |entries| ==> entries[i].location != location
  {
    if entries == [] {
    } else {
      FindAt(entries[1..], location);
      if Find(entries[1..], location) != None && entries[0].location != location {
        var i :| 0 <= i < |entries[1..]| && entries[1..][i].location == location;
        assert entries[i + 1].location == location;
      }
    }
  }

  /** An add succeeds exactly for a cell of the screen while there are fewer than 2000 entries; the new entry comes in
    * front, on, with its whole on length to go. */
  lemma AddExactly(entries: seq<Entry>, l: word, on: byte, off: byte, onLength: word, offLength: word)
    ensures Apply(entries, Add(l, on, off, onLength, offLength)) ==
      if l < 2000 && |entries| < 2000 then ([Entry(l, on, off, onLength, offLength, onLength, 1)] + entries, 0)
      else (entries, -1)
  {}

  // No entry before index k is at the location, and the one at k is, if there is one.
  ghost predicate FirstIndex(entries: seq<Entry>, location: word, k: nat) {
    && k <= |entries| && (k < |entries| ==> entries[k].location == location)
    && (forall i :: 0 <= i < k ==> entries[i].location != location)
  }

  lemma NoneLeft(entries: seq<Entry>, location: word, k: nat)
    requires FirstIndex(entries, location, k) && k < |entries|
    ensures Find(entries[..k] + entries[k + 1..], location) == None <==>
      forall i :: k < i < |entries| ==> entries[i].location != location
  {
    var after := entries[..k] + entries[k + 1..];
    FindAt(after, location);
    hide Find;
    assert forall i :: 0 <= i < |after| ==> after[i] == entries[if i < k then i else i + 1];
    assert forall i :: k < i < |entries| ==> entries[i] == after[i - 1];
  }

  /** A remove takes out the first entry at its location and nothing else, and fails exactly when there is none. The
    * location is free afterwards exactly when it had no second entry. */
  lemma RemoveExactly(entries: seq<Entry>, location: word, k: nat)
    requires FirstIndex(entries, location, k)
    ensures Apply(entries, Remove(location)) ==
      if k < |entries| then (entries[..k] + entries[k + 1..], 0) else (entries, -1)
    ensures Find(Apply(entries, Remove(location)).0, location) == None <==>
      forall i :: k < i < |entries| ==> entries[i].location != location
  {
    FirstAtIs(entries, location, k);
    AtFirst(entries, location);
    hide Find, RemoveFirst, FirstAt;
    if k < |entries| { NoneLeft(entries, location, k); }
  }

  /** After a remove that took an entry out, an add for any cell of the screen succeeds. */
  lemma RemoveMakesRoom(entries: seq<Entry>, location: word, add: Op)
    requires |entries| <= 2000 && add.Add? && add.location < 2000 && Apply(entries, Remove(location)).1 == 0
    ensures Apply(Apply(entries, Remove(location)).0, add).1 == 0
  {
    RemoveExactly(entries, location, FirstAt(entries, location));
  }

  /** A sync gives the first entry at the second location the lengths, countdown and status of the first entry at the
    * first location, and nothing else changes; it fails exactly when one of them is missing. */
  lemma SyncExactly(entries: seq<Entry>, first: word, second: word, k: nat, l: nat)
    requires FirstIndex(entries, first, k) && FirstIndex(entries, second, l)
    ensures Apply(entries, Sync(first, second)) ==
      if k < |entries| && l < |entries| then
        var a, b := entries[k], entries[l];
        (entries[l := Entry(second, b.onChar, b.offChar, a.onLength, a.offLength, a.countdown, a.status)], 0)
      else (entries, -1)
  {
    FirstAtIs(entries, first, k);
    FirstAtIs(entries, second, l);
    AtFirst(entries, first);
    AtFirst(entries, second);
    hide Find, FirstAt;
    if k < |entries| && l < |entries| { UpdateAtFirst(entries, second, SameTiming(entries[k], entries[l])); }
  }

  function ApplyAll(entries: seq<Entry>, ops: seq<Op>): seq<Entry>
    decreases |ops|
  {
    if ops == [] then entries else ApplyAll(Apply(entries, ops[0]).0, ops[1..])
  }

  // ----- an entry among the others -----

  function Ticks(ops: seq<Op>): nat {
    if ops == [] then 0 else (if ops[0].Tick? then 1 else 0) + Ticks(ops[1..])
  }

  // The operation does not add, remove or re-time what is at the location.
  predicate LeavesAlone(op: Op, location: word) {
    match op
    case Add(l, _, _, _, _) => l != location
    case Remove(l) => l != location
    case Sync(_, l) => l != location
    case Tick => true
  }

  predicate Leaves(ops: seq<Op>, location: word) {
    forall i :: 0 <= i < |ops| ==> LeavesAlone(ops[i], location)
  }

  lemma {:induction false} FindAfter(entries: seq<Entry>, location: word, other: word, e: Entry)
    requires other != location && e.location == other
    ensures Find(RemoveFirst(entries, other), location) == Find(entries, location)
    ensures Find(UpdateFirst(entries, other, e), location) == Find(entries, location)
    ensures Find([e] + entries, location) == Find(entries, location)
    ensures Find(TickAll(entries), location)
         == if Find(entries, location) == None then None else Some(TickEntry(Find(entries, location).value))
  {
    assert ([e] + entries)[1..] == entries;
    if entries != [] {
      FindAfter(entries[1..], location, other, e);
      assert TickAll(entries)[1..] == TickAll(entries[1..]);
      if entries[0].location == other {
        assert ([e] + entries[1..])[1..] == entries[1..];
      } else {
        assert RemoveFirst(entries, other)[1..] == RemoveFirst(entries[1..], other);
        assert UpdateFirst(entries, other, e)[1..] == UpdateFirst(entries[1..], other, e);
      }
    }
  }

  lemma {:induction false} FindLocation(entries: seq<Entry>, location: word)
    ensures Find(entries, location).Some? ==> Find(entries, location).value.location == location
  {
    if entries == [] {
    } else {
      FindLocation(entries[1..], location);
    }
  }

  lemma {:induction false} TickedAdd(e: Entry, n: nat)
    ensures Ticked(TickEntry(e), n) == Ticked(e, n + 1)
  {
    if n == 0 {
    } else {
      TickedAdd(e, n - 1);
    }
  }

  lemma ApplyKeeps(entries: seq<Entry>, location: word, op: Op)
    requires LeavesAlone(op, location) && Find(entries, location).Some?
    ensures var after := Find(Apply(entries, op).0, location);
      after.Some? && after.value == if op.Tick? then TickEntry(Find(entries, location).value)
        else Find(entries, location).value
  {
    match op
    case Add(l, _, _, _, _) => FindAfter(entries, location, l, NewEntry(op));
    case Remove(l) =>
      if Find(entries, l).Some? { FindLocation(entries, l); FindAfter(entries, location, l, Find(entries, l).value); }
    case Sync(first, second) =>
      if Find(entries, first).Some? && Find(entries, second).Some? {
        FindLocation(entries, second);
        FindAfter(entries, location, second, SameTiming(Find(entries, first).value, Find(entries, second).value));
      }
    case Tick =>
      var e := Find(entries, location).value;
      var other: word := if location == 0 then 1 else 0;
      FindAfter(entries, location, other, e.(location := other));
  }

  /** Whatever else is added, removed or synced meanwhile, an entry goes through exactly its own ticks. */
  lemma {:induction false} EntryKeepsTime(entries: seq<Entry>, location: word, ops: seq<Op>)
    requires Leaves(ops, location) && Find(entries, location).Some?
    ensures Find(ApplyAll(entries, ops), location) == Some(Ticked(Find(entries, location).value, Ticks(ops)))
    decreases |ops|
  {
    if ops == [] {
    } else {
      ApplyKeeps(entries, location, ops[0]);
      assert forall i :: 0 <= i < |ops[1..]| ==> ops[1..][i] == ops[i + 1];
      EntryKeepsTime(Apply(entries, ops[0]).0, location, ops[1..]);
      TickedAdd(Find(entries, location).value, Ticks(ops[1..]));
    }
  }

  /** An added entry is on exactly when the number of ticks since then says so. */
  lemma AddedBlinks(entries: seq<Entry>, add: Op, ops: seq<Op>)
    requires add.Add? && Apply(entries, add).1 == 0 && Leaves(ops, add.location)
    ensures var now := Find(ApplyAll(Apply(entries, add).0, ops), add.location);
      && now.Some?
      && (IsOn(now.value) <==> InOnPart(Ticks(ops), add.onLength, add.offLength))
  {
    EntryKeepsTime([NewEntry(add)] + entries, add.location, ops);
    OnExactly(NewEntry(add), Ticks(ops));
  }

  lemma {:induction false} FindUpdated(entries: seq<Entry>, location: word, e: Entry)
    requires Find(entries, location).Some? && e.location == location
    ensures Find(UpdateFirst(entries, location, e), location) == Some(e)
  {
    if entries[0].location == location {
    } else {
      FindUpdated(entries[1..], location, e);
      assert UpdateFirst(entries, location, e)[1..] == UpdateFirst(entries[1..], location, e);
    }
  }

  lemma {:induction false} TickedAlike(a: Entry, b: Entry, n: nat)
    requires b == SameTiming(a, b)
    ensures Ticked(b, n) == SameTiming(Ticked(a, n), Ticked(b, n))
  {
    if n == 0 {
    } else {
      TickedAlike(a, b, n - 1);
    }
  }

  /** After a sync the two entries blink alike for ever, whatever happens to others. */
  lemma SyncedBlinkAlike(entries: seq<Entry>, first: word, second: word, ops: seq<Op>)
    requires Apply(entries, Sync(first, second)).1 == 0
    requires Leaves(ops, first) && Leaves(ops, second)
    ensures var last := ApplyAll(Apply(entries, Sync(first, second)).0, ops);
      var a, b := Find(last, first), Find(last, second);
      a.Some? && b.Some? && a.value.countdown == b.value.countdown && a.value.status == b.value.status
  {
    var a, b := Find(entries, first).value, Find(entries, second).value;
    var synced := SameTiming(a, b);
    FindLocation(entries, second);
    FindUpdated(entries, second, synced);
    if first != second { FindAfter(entries, first, second, synced); }
    var start := UpdateFirst(entries, second, synced);
    EntryKeepsTime(start, first, ops);
    EntryKeepsTime(start, second, ops);
    TickedAlike(Find(start, first).value, synced, Ticks(ops));
  }
}
