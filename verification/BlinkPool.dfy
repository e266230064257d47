/** The linked list of fish/blink.S threaded through the slot pool of fish/fish.c, proved to behave as the plain list of
  * BlinkSpec. */
module BlinkPool {
  import opened Basics
  import opened Bytes
  import opened BlinkSpec
  import BlinkScreen
  import Console

  const NULL := -1
  const FREE_ENTRY := Entry(0, 0, 0, 0, 0, 0, 0)

  datatype Slot = Slot(entry: Entry, next: int)

  ghost predicate Distinct(chain: seq<int>) {
    forall i, j :: 0 <= i < j < |chain| ==> chain[i] != chain[j]
  }

  ghost function After(chain: seq<int>, i: nat): int {
    if i + 1 < |chain| then chain[i + 1] else NULL
  }

  // The slot at position k, or NULL past the end.
  ghost function SlotAt(chain: seq<int>, k: nat): int {
    if k < |chain| then chain[k] else NULL
  }

  // `chain` lists the slots reached from `head`, in order.
  ghost predicate Linked(pool: seq<Slot>, head: int, chain: seq<int>) {
    && |pool| == Console.CELLS
    && Distinct(chain)
    && (forall i :: 0 <= i < |chain| ==> 0 <= chain[i] < Console.CELLS)
    && head == (if chain == [] then NULL else chain[0])
    && (forall i {:trigger pool[chain[i]]} :: 0 <= i < |chain| ==> pool[chain[i]].next == After(chain, i))
  }

  // The linked slots are exactly those with a non-zero location.
  ghost predicate OwnsUsed(pool: seq<Slot>, chain: seq<int>) {
    forall k :: 0 <= k < |pool| ==> (pool[k].entry.location != 0 <==> k in chain)
  }

  // No slot points its cell outside the screen.
  ghost predicate OnScreen(pool: seq<Slot>) {
    forall k :: 0 <= k < |pool| ==> pool[k].entry.location < Console.CELLS
  }

  ghost function EntriesOf(pool: seq<Slot>, chain: seq<int>): (entries: seq<Entry>)
    requires forall i :: 0 <= i < |chain| ==> 0 <= chain[i] < |pool|
    ensures |entries| == |chain| && forall i :: 0 <= i < |chain| ==> entries[i] == pool[chain[i]].entry
  {
    seq(|chain|, i requires 0 <= i < |chain| => pool[chain[i]].entry)
  }

  ghost function ElementsOf(s: seq<int>): set<int> { set x | x in s }

  lemma {:induction false} ElementsSize(s: seq<int>)
    requires Distinct(s)
    ensures |ElementsOf(s)| == |s|
  {
    if s == [] {
    } else {
      var n := |s| - 1;
      ElementsSize(s[..n]);
      assert ElementsOf(s) == ElementsOf(s[..n]) + {s[n]};
      assert s[n] !in s[..n];
    }
  }

  ghost function UpTo(n: nat): (s: set<int>)
    ensures |s| == n && forall k :: k in s <==> 0 <= k < n
  {
    if n == 0 then {} else UpTo(n - 1) + {n - 1}
  }

  lemma SubsetSize(a: set<int>, b: set<int>)
    requires a <= b
    ensures |a| <= |b| && (|a| == |b| ==> a == b)
  {
    assert b == a + (b - a);
    assert |b| == |a| + |b - a|;
  }

  // Distinct slots cannot outnumber the pool, and as many as the pool has are all of them.
  lemma Pigeonhole(chain: seq<int>, n: nat)
    requires Distinct(chain) && forall i :: 0 <= i < |chain| ==> 0 <= chain[i] < n
    ensures |chain| <= n
    ensures |chain| == n <==> forall k :: 0 <= k < n ==> k in chain
  {
    var all, used := UpTo(n), ElementsOf(chain);
    ElementsSize(chain);
    forall x | x in used ensures x in all {
      var i :| 0 <= i < |chain| && chain[i] == x;
    }
    SubsetSize(used, all);
    if forall k :: 0 <= k < n ==> k in chain {
      forall x | x in all ensures x in used { assert x in chain; }
      assert used == all;
    }
    if |chain| == n {
      forall k | 0 <= k < n ensures k in chain { assert k in all; assert k in used; }
    }
  }

  // A pool with no free slot is a chain of Console.CELLS slots.
  lemma FullChain(pool: seq<Slot>, head: int, chain: seq<int>)
    requires Linked(pool, head, chain) && OwnsUsed(pool, chain)
    ensures |chain| <= Console.CELLS
    ensures |chain| == Console.CELLS <==> forall k :: 0 <= k < Console.CELLS ==> pool[k].entry.location != 0
  {
    Pigeonhole(chain, Console.CELLS);
  }

  ghost predicate SameShape(pool: seq<Slot>, before: seq<Slot>) {
    && |pool| == |before|
    && (forall k :: 0 <= k < |pool| ==>
      pool[k].next == before[k].next && pool[k].entry.location == before[k].entry.location)
  }

  // The pool after the tasklet has passed k entries.
  ghost function TickedTo(pool: seq<Slot>, chain: seq<int>, k: nat): (after: seq<Slot>)
    requires k <= |chain| && forall i :: 0 <= i < |chain| ==> 0 <= chain[i] < |pool|
    ensures |after| == |pool|
  {
    if k == 0 then pool
    else
      var p := TickedTo(pool, chain, k - 1);
      p[chain[k - 1] := Slot(TickEntry(p[chain[k - 1]].entry), p[chain[k - 1]].next)]
  }

  lemma {:induction false} TickedShape(pool: seq<Slot>, head: int, chain: seq<int>, k: nat)
    requires Linked(pool, head, chain) && k <= |chain|
    ensures SameShape(TickedTo(pool, chain, k), pool)
    ensures forall i :: 0 <= i < k ==> TickedTo(pool, chain, k)[chain[i]].entry == TickEntry(pool[chain[i]].entry)
    ensures forall i :: k <= i < |chain| ==> TickedTo(pool, chain, k)[chain[i]] == pool[chain[i]]
    ensures k < |chain| ==> TickedTo(pool, chain, k)[chain[k]].next == After(chain, k)
  {
    if k == 0 {
    } else {
      TickedShape(pool, head, chain, k - 1);
    }
  }

  lemma LinkedBounds(pool: seq<Slot>, head: int, chain: seq<int>)
    requires Linked(pool, head, chain)
    ensures |pool| == Console.CELLS && head == SlotAt(chain, 0)
    ensures forall i :: 0 <= i < |chain| ==> 0 <= chain[i] < Console.CELLS
  {}

  lemma TickedStart(pool: seq<Slot>, chain: seq<int>)
    requires forall i :: 0 <= i < |chain| ==> 0 <= chain[i] < |pool|
    ensures TickedTo(pool, chain, 0) == pool
  {}

  lemma TickedStep(pool: seq<Slot>, head: int, chain: seq<int>, k: nat)
    requires Linked(pool, head, chain) && k < |chain|
    ensures var now, slot := TickedTo(pool, chain, k), chain[k];
      && TickedTo(pool, chain, k + 1) == now[slot := Slot(TickEntry(now[slot].entry), now[slot].next)]
      && now[slot].entry == pool[slot].entry && now[slot].next == SlotAt(chain, k + 1)
  {
    TickedShape(pool, head, chain, k);
  }

  lemma ShapeKeeps(pool: seq<Slot>, before: seq<Slot>, head: int, chain: seq<int>)
    requires Linked(before, head, chain) && OwnsUsed(before, chain) && SameShape(pool, before)
    ensures Linked(pool, head, chain) && OwnsUsed(pool, chain)
  {}

  lemma AllTicked(pool: seq<Slot>, head: int, chain: seq<int>)
    requires Linked(pool, head, chain) && OwnsUsed(pool, chain)
    ensures var after := TickedTo(pool, chain, |chain|);
      && Linked(after, head, chain) && OwnsUsed(after, chain) && (OnScreen(pool) ==> OnScreen(after))
      && EntriesOf(after, chain) == TickAll(EntriesOf(pool, chain))
  {
    TickedShape(pool, head, chain, |chain|);
    ShapeKeeps(TickedTo(pool, chain, |chain|), pool, head, chain);
  }

  lemma SyncOp(entries: seq<Entry>, first: word, second: word, vmem: seq<byte>)
    ensures var k, l, op := FirstAt(entries, first), FirstAt(entries, second), Sync(first, second);
      if k < |entries| && l < |entries| then
        && Apply(entries, op) == (entries[l := SameTiming(entries[k], entries[l])], 0)
        && BlinkScreen.Draw(entries, vmem, op) == BlinkScreen.Poke(vmem, entries[l].location, entries[l].offChar)
      else Apply(entries, op) == (entries, -1) && BlinkScreen.Draw(entries, vmem, op) == vmem
  {
    AtFirst(entries, first);
    AtFirst(entries, second);
    var k, l := FirstAt(entries, first), FirstAt(entries, second);
    hide FirstAt, Find;
    if k < |entries| && l < |entries| { UpdateAtFirst(entries, second, SameTiming(entries[k], entries[l])); }
  }

  lemma TickOp(entries: seq<Entry>, vmem: seq<byte>)
    ensures Apply(entries, Tick).0 == TickAll(entries)
    ensures BlinkScreen.Draw(entries, vmem, Tick) == BlinkScreen.DrawTicks(entries, |entries|, vmem)
  {}

  lemma EntryUpdated(pool: seq<Slot>, head: int, chain: seq<int>, l: nat, e: Entry)
    requires Linked(pool, head, chain) && OwnsUsed(pool, chain) && l < |chain|
    requires e.location == pool[chain[l]].entry.location
    ensures var after := pool[chain[l] := Slot(e, pool[chain[l]].next)];
      && Linked(after, head, chain) && OwnsUsed(after, chain) &&
        EntriesOf(after, chain) == EntriesOf(pool, chain)[l := e]
      && (OnScreen(pool) ==> OnScreen(after))
  {}

  // The pointer cell before position i of the chain holds the slot at position i.
  lemma PointsAt(pool: seq<Slot>, head: int, chain: seq<int>, i: nat)
    requires Linked(pool, head, chain) && i < |chain|
    ensures (if i == 0 then head else pool[chain[i - 1]].next) == chain[i]
    ensures forall j :: 0 <= j < |chain| && chain[j] == chain[i] ==> j == i
  {}

  lemma AddLinks(pool: seq<Slot>, head: int, chain: seq<int>, slot: nat, e: Entry)
    requires Linked(pool, head, chain) && OwnsUsed(pool, chain)
    requires slot < Console.CELLS && slot !in chain
    ensures var after, links := pool[slot := Slot(e, head)], [slot] + chain;
      && Linked(after, slot, links)
      && EntriesOf(after, links) == [e] + EntriesOf(pool, chain)
      && (OwnsUsed(after, links) <==> e.location != 0)
  {}

  /** What an add at location 0 costs: the slot it takes goes on looking free, so the next add takes it again and
    * sets its NEXT to itself. No list is linked from there any more, and a walk never ends. */
  lemma AddAtZeroLoops(pool: seq<Slot>, head: int, slot: nat, e: Entry, f: Entry)
    requires |pool| == Console.CELLS && slot < Console.CELLS && pool[slot].entry.location == 0 == e.location
    requires forall k :: 0 <= k < slot ==> pool[k].entry.location != 0
    ensures var one := pool[slot := Slot(e, head)];
      one[slot].entry.location == 0 && forall k :: 0 <= k < slot ==> one[k].entry.location != 0
    ensures var two := pool[slot := Slot(e, head)][slot := Slot(f, slot)];
      two[slot].next == slot && forall chain :: !Linked(two, slot, chain)
  {
    var two := pool[slot := Slot(e, head)][slot := Slot(f, slot)];
    forall chain ensures !Linked(two, slot, chain) {
      if chain != [] && chain[0] == slot {
        assert two[chain[0]].next == slot;
        assert After(chain, 0) == slot ==> |chain| > 1 && chain[1] == chain[0];
      }
    }
  }

  // The cell before position k is pointed past it; for the first position that cell is the head.
  ghost function Bypassed(pool: seq<Slot>, chain: seq<int>, k: nat): (after: seq<Slot>)
    requires k < |chain| && forall i :: 0 <= i < |chain| ==> 0 <= chain[i] < |pool|
    ensures |after| == |pool|
  {
    if k == 0 then pool else pool[chain[k - 1] := pool[chain[k - 1]].(next := pool[chain[k]].next)]
  }

  // What remove does to the pool: the slot is bypassed and cleared.
  ghost function Unlinked(pool: seq<Slot>, chain: seq<int>, k: nat): seq<Slot>
    requires k < |chain| && forall i :: 0 <= i < |chain| ==> 0 <= chain[i] < |pool|
  {
    Bypassed(pool, chain, k)[chain[k] := Slot(FREE_ENTRY, NULL)]
  }

  ghost function Without<T>(s: seq<T>, k: nat): (r: seq<T>)
    requires k < |s|
    ensures |r| == |s| - 1 && forall i :: 0 <= i < |r| ==> r[i] == s[if i < k then i else i + 1]
  {
    s[..k] + s[k + 1..]
  }

  lemma RemoveLinked(pool: seq<Slot>, head: int, chain: seq<int>, k: nat)
    requires Linked(pool, head, chain) && k < |chain|
    ensures Linked(Unlinked(pool, chain, k), if k == 0 then pool[chain[0]].next else head, Without(chain, k))
  {}

  lemma UnlinkedEntry(pool: seq<Slot>, chain: seq<int>, k: nat, x: nat)
    requires k < |chain| && x < |pool| && forall i :: 0 <= i < |chain| ==> 0 <= chain[i] < |pool|
    ensures |Unlinked(pool, chain, k)| == |pool|
    ensures Unlinked(pool, chain, k)[x].entry == if x == chain[k] then FREE_ENTRY else pool[x].entry
  {}

  lemma WithoutMembers(chain: seq<int>, k: nat, x: int)
    requires Distinct(chain) && k < |chain|
    ensures x in Without(chain, k) <==> x in chain && x != chain[k]
  {}

  lemma RemoveEntries(pool: seq<Slot>, head: int, chain: seq<int>, k: nat)
    requires Linked(pool, head, chain) && OwnsUsed(pool, chain) && k < |chain|
    ensures var after, links := Unlinked(pool, chain, k), Without(chain, k);
      && OwnsUsed(after, links)
      && (forall i :: 0 <= i < |links| ==> 0 <= links[i] < |after|)
      && EntriesOf(after, links) == Without(EntriesOf(pool, chain), k)
  {
    var after, links := Unlinked(pool, chain, k), Without(chain, k);
    UnlinkedEntry(pool, chain, k, 0);
    LinkedBounds(pool, head, chain);
    assert Distinct(chain);
    hide Linked, Unlinked, Without;
    forall i | 0 <= i < |links| ensures after[links[i]].entry == EntriesOf(pool, chain)[if i < k then i else i + 1] {
      UnlinkedEntry(pool, chain, k, links[i]);
    }
    assert EntriesOf(after, links) == Without(EntriesOf(pool, chain), k);
    forall x | 0 <= x < |after| ensures after[x].entry.location != 0 <==> x in links {
      WithoutMembers(chain, k, x);
      UnlinkedEntry(pool, chain, k, x);
    }
  }

  lemma RemoveOnScreen(pool: seq<Slot>, chain: seq<int>, k: nat)
    requires OnScreen(pool) && k < |chain| && forall i :: 0 <= i < |chain| ==> 0 <= chain[i] < |pool|
    ensures OnScreen(Unlinked(pool, chain, k))
  {}

  // The slot held the location and looks free now, for mp1_malloc to hand out again.
  ghost predicate Freed(before: seq<Slot>, after: seq<Slot>, slot: int, location: word) {
    && |after| == |before| && 0 <= slot < |before|
    && before[slot].entry.location == location && after[slot].entry.location == 0
  }

  class Blinker {
    const pool: array<Slot>
    const vmem: array<byte> // the video page at vmem_base_addr
    var head: int
    ghost var chain: seq<int>

    ghost predicate Sized()
      reads this, pool
    {
      vmem.Length == BlinkScreen.PAGE && vmem as object != pool && OnScreen(pool[..])
    }

    ghost predicate Valid()
      reads this, pool
    {
      Linked(pool[..], head, chain) && OwnsUsed(pool[..], chain) && Sized()
    }

    ghost function Entries(): seq<Entry>
      requires Valid()
      reads this, pool
    {
      EntriesOf(pool[..], chain)
    }

    constructor (page: array<byte>)
      requires page.Length == BlinkScreen.PAGE
      ensures Valid() && fresh(pool) && vmem == page && Entries() == []
    {
      vmem := page;
      pool := new Slot[Console.CELLS](i => Slot(FREE_ENTRY, NULL));
      head, chain := NULL, [];
    }

    // mp1_poke at a cell's character
    method Poke(location: word, c: byte)
      requires 2 * location < vmem.Length
      modifies vmem
      ensures vmem[..] == BlinkScreen.Poke(old(vmem[..]), location, c)
    {
      vmem[2 * location] := c;
    }

    // mp1_malloc
    method Malloc() returns (slot: int)
      requires Valid()
      ensures slot == NULL <==> |chain| == Console.CELLS
      ensures slot != NULL ==> 0 <= slot < Console.CELLS && pool[slot].entry.location == 0 && slot !in chain
      ensures slot != NULL ==> forall k :: 0 <= k < slot ==> pool[k].entry.location != 0
    {
      FullChain(pool[..], head, chain);
      var i := 0;
      while i < Console.CELLS
        invariant 0 <= i <= Console.CELLS
        invariant forall k :: 0 <= k < i ==> pool[k].entry.location != 0
      {
        if pool[i].entry.location == 0 {
          assert pool[..][i].entry.location == 0;
          return i;
        }
        i := i + 1;
      }
      forall k | 0 <= k < Console.CELLS ensures pool[..][k].entry.location != 0 { assert pool[..][k] == pool[k]; }
      slot := NULL;
    }

    // mp1_find_helper
    method FindHelper(location: word) returns (slot: int, ghost k: nat)
      requires Valid()
      ensures slot == SlotAt(chain, FirstAt(Entries(), location))
      ensures k == FirstAt(Entries(), location)
    {
      ghost var entries := Entries();
      hide FirstAt, OwnsUsed, OnScreen;
      k := 0;
      slot := head;
      while slot != NULL
        invariant k <= |chain| && slot == SlotAt(chain, k)
        invariant forall i :: 0 <= i < k ==> entries[i].location != location
        decreases |chain| - k
      {
        assert entries[k] == pool[..][chain[k]].entry == pool[slot].entry;
        if pool[slot].entry.location == location {
          FirstAtIs(entries, location, k);
          return;
        }
        assert pool[..][chain[k]].next == pool[slot].next;
        assert pool[slot].next == After(chain, k);
        slot, k := pool[slot].next, k + 1;
      }
      FirstAtIs(entries, location, k);
    }

    // mp1_ioctl_add; at location 0 the slot it takes goes on looking free.
    method Add(op: Op) returns (r: int)
      requires Valid() && op.Add?
      modifies this, pool, vmem
      ensures Linked(pool[..], head, chain) && Sized()
      ensures vmem[..] == BlinkScreen.Draw(old(Entries()), old(vmem[..]), op)
      ensures r == Apply(old(Entries()), op).1
      ensures r == if op.location < 2000 && |old(chain)| < 2000 then 0 else -1
      ensures EntriesOf(pool[..], chain) == Apply(old(Entries()), op).0
      ensures Valid() <==> r == -1 || op.location != 0
    {
      if op.location >= Console.CELLS {
        return -1;
      }
      var slot := Malloc();
      FullChain(pool[..], head, chain);
      if slot == NULL {
        return -1;
      }
      pool[slot] := Slot(NewEntry(op), head);
      head, chain := slot, [slot] + chain;
      AddLinks(old(pool[..]), old(head), old(chain), slot, NewEntry(op));
      assert pool[..] == old(pool[..])[slot := Slot(NewEntry(op), old(head))];
      Poke(op.location, op.onChar);
      r := 0;
    }

    // mp1_free
    method Free(slot: nat)
      requires slot < pool.Length
      modifies pool
      ensures pool[..] == old(pool[..])[slot := Slot(FREE_ENTRY, NULL)]
    {
      pool[slot] := Slot(FREE_ENTRY, NULL);
    }

    // The walk of remove to the pointer that holds `slot`: the head, or the next field of `prev`.
    method FindPrev(slot: int, ghost k: nat) returns (prev: int)
      requires Valid() && k < |chain| && slot == chain[k]
      ensures prev == if k == 0 then NULL else chain[k - 1]
    {
      prev := NULL;
      ghost var i := 0;
      while (if prev == NULL then head else pool[prev].next) != slot
        invariant i <= k && prev == if i == 0 then NULL else chain[i - 1]
        decreases k - i
      {
        PointsAt(pool[..], head, chain, i);
        prev := if prev == NULL then head else pool[prev].next;
        i := i + 1;
      }
      PointsAt(pool[..], head, chain, i);
    }

    // The two moves of remove at found_prev.
    method Bypass(slot: nat, prev: int, ghost k: nat)
      requires Linked(pool[..], head, chain) && k < |chain|
      requires slot == chain[k] && prev == if k == 0 then NULL else chain[k - 1]
      modifies this`head, pool
      ensures head == if k == 0 then old(pool[slot].next) else old(head)
      ensures pool[..] == Bypassed(old(pool[..]), chain, k)
    {
      if prev == NULL {
        head := pool[slot].next;
      } else {
        pool[prev] := pool[prev].(next := pool[slot].next);
      }
    }

    method Unlink(slot: int, prev: int, ghost k: nat)
      requires Valid() && k < |chain| && slot == chain[k] && prev == if k == 0 then NULL else chain[k - 1]
      modifies this, pool
      ensures Valid() && Entries() == Without(old(Entries()), k)
      ensures chain == Without(old(chain), k) && pool[slot].entry == FREE_ENTRY
    {
      RemoveLinked(pool[..], head, chain, k);
      RemoveEntries(pool[..], head, chain, k);
      RemoveOnScreen(pool[..], chain, k);
      assert 0 <= slot < Console.CELLS;
      hide Linked, OwnsUsed, OnScreen, Bypassed, EntriesOf;
      Bypass(slot, prev, k);
      Free(slot);
      chain := Without(chain, k);
    }

    // mp1_ioctl_remove
    method Remove(location: word) returns (r: int)
      requires Valid()
      modifies this, pool
      ensures Valid()
      ensures (Entries(), r) == Apply(old(Entries()), Op.Remove(location))
      ensures r == -1 <==> forall slot :: slot in old(chain) ==> old(pool[..])[slot].entry.location != location
      ensures r != -1 ==> exists slot :: slot in old(chain) && Freed(old(pool[..]), pool[..], slot, location)
      ensures |chain| == if r == -1 then |old(chain)| else |old(chain)| - 1
      ensures r != -1 ==> |chain| < Console.CELLS
    {
      assert |chain| <= Console.CELLS by { FullChain(pool[..], head, chain); }
      var slot, k := FindHelper(location);
      AtFirst(Entries(), location);
      if slot == NULL {
        return -1;
      }
      var prev := FindPrev(slot, k);
      Unlink(slot, prev, k);
      r := 0;
    }

    // The body of the tasklet's loop.
    method TickSlot(slot: nat)
      requires slot < pool.Length && 2 * pool[slot].entry.location < vmem.Length && vmem as object != pool
      modifies pool, vmem
      ensures vmem[..] == BlinkScreen.DrawTick(old(pool[slot].entry), old(vmem[..]))
      ensures pool[..] == old(pool[..])[slot := Slot(TickEntry(old(pool[slot].entry)), old(pool[slot].next))]
    {
      var e := pool[slot].entry;
      pool[slot] := pool[slot].(entry := e.(countdown := Decrement(e.countdown)));
      if SignedPositive(pool[slot].entry.countdown) {
        return;
      }
      var length: word;
      if e.status % 2 == 1 {
        Poke(e.location, e.offChar);
        length := e.offLength;
      } else {
        Poke(e.location, e.onChar);
        length := e.onLength;
      }
      pool[slot] := pool[slot].(entry := pool[slot].entry.(countdown := length));
      pool[slot] := pool[slot].(entry :=
        pool[slot].entry.(status := if e.status % 2 == 1 then e.status - 1 else e.status + 1));
    }

    // Its loop over the list.
    method Walk()
      requires Linked(pool[..], head, chain) && Sized()
      modifies pool, vmem
      ensures pool[..] == TickedTo(old(pool[..]), chain, |chain|)
      ensures vmem[..] == BlinkScreen.DrawTicks(EntriesOf(old(pool[..]), chain), |chain|, old(vmem[..]))
    {
      ghost var before, screen := pool[..], vmem[..];
      ghost var k := 0;
      var slot := head;
      LinkedBounds(before, head, chain);
      TickedStart(before, chain);
      ghost var entries := EntriesOf(before, chain);
      hide Linked, TickedTo, TickEntry, After, EntriesOf;
      while slot != NULL
        invariant k <= |chain| && slot == SlotAt(chain, k)
        invariant pool[..] == TickedTo(before, chain, k)
        invariant vmem[..] == BlinkScreen.DrawTicks(entries, k, screen)
        decreases |chain| - k
      {
        TickedStep(before, head, chain, k);
        assert pool[slot].entry == entries[k] && before[slot].entry.location < Console.CELLS;
        TickSlot(slot);
        slot, k := pool[slot].next, k + 1;
      }
    }

    // mp1_rtc_tasklet
    method Tasklet()
      requires Valid()
      modifies pool, vmem
      ensures Valid()
      ensures Entries() == TickAll(old(Entries()))
      ensures vmem[..] == BlinkScreen.DrawTicks(old(Entries()), |old(Entries())|, old(vmem[..]))
    {
      AllTicked(pool[..], head, chain);
      hide Linked, OwnsUsed, OnScreen, TickedTo, EntriesOf, TickAll;
      Walk();
    }

    // The four moves of sync_copy_loop.
    method CopyTiming(esi: nat, edi: nat)
      requires esi < pool.Length && edi < pool.Length
      modifies pool
      ensures pool[..] == old(pool[..])[edi :=
        Slot(SameTiming(old(pool[esi].entry), old(pool[edi].entry)), old(pool[edi].next))]
    {
      pool[edi] := pool[edi].(entry := pool[edi].entry.(onLength := pool[esi].entry.onLength));
      pool[edi] := pool[edi].(entry := pool[edi].entry.(offLength := pool[esi].entry.offLength));
      pool[edi] := pool[edi].(entry := pool[edi].entry.(countdown := pool[esi].entry.countdown));
      pool[edi] := pool[edi].(entry := pool[edi].entry.(status := pool[esi].entry.status));
    }

    // sync_copy_loop and sync_display: the conditional move there never takes the on character.
    method SyncSlots(esi: nat, edi: nat, ghost l: nat)
      requires Valid() && esi < Console.CELLS && l < |chain| && edi == chain[l]
      modifies pool, vmem
      ensures Valid()
      ensures Entries() == old(Entries())[l := SameTiming(old(pool[esi].entry), old(Entries())[l])]
      ensures vmem[..] == BlinkScreen.Poke(old(vmem[..]), old(Entries())[l].location, old(Entries())[l].offChar)
    {
      assert edi < Console.CELLS && pool[..][edi].entry.location < Console.CELLS;
      EntryUpdated(pool[..], head, chain, l, SameTiming(pool[esi].entry, pool[edi].entry));
      hide Linked, OwnsUsed, OnScreen;
      CopyTiming(esi, edi);
      Poke(pool[edi].entry.location, pool[edi].entry.offChar);
    }

    // mp1_ioctl_sync, on the two halves of its argument
    method SyncTwo(first: word, second: word) returns (r: int)
      requires Valid()
      modifies pool, vmem
      ensures Valid()
      ensures (Entries(), r) == Apply(old(Entries()), Sync(first, second))
      ensures vmem[..] == BlinkScreen.Draw(old(Entries()), old(vmem[..]), Sync(first, second))
    {
      SyncOp(Entries(), first, second, vmem[..]);
      var esi, k := FindHelper(first);
      if esi == NULL {
        return -1;
      }
      var edi, l := FindHelper(second);
      if edi == NULL {
        return -1;
      }
      assert 0 <= esi < Console.CELLS && 0 <= edi < Console.CELLS && chain[k] == esi && chain[l] == edi;
      assert Entries()[k] == pool[esi].entry;
      hide Linked, OwnsUsed, OnScreen, Apply;
      SyncSlots(esi, edi, l);
      r := 0;
    }

    method Do(op: Op)
      requires Valid() && (op.Add? ==> op.location != 0)
      modifies this, pool, vmem
      ensures Valid()
      ensures Entries() == Apply(old(Entries()), op).0
      ensures vmem[..] == BlinkScreen.Draw(old(Entries()), old(vmem[..]), op)
    {
      hide Linked, OwnsUsed, EntriesOf, Apply;
      match op
      case Add(_, _, _, _, _) => var _ := Add(op);
      case Remove(location) => var _ := Remove(location);
      case Sync(first, second) => var _ := SyncTwo(first, second);
      case Tick => TickOp(Entries(), vmem[..]); Tasklet();
    }

    /** Whatever the operations, the pool and its list go through exactly the states of the plain list, as long as
      * nothing is added at location 0. */
    method Run(ops: seq<Op>)
      requires Valid() && forall i :: 0 <= i < |ops| && ops[i].Add? ==> ops[i].location != 0
      modifies this, pool, vmem
      ensures Valid()
      ensures (Entries(), vmem[..]) == BlinkScreen.DrawAll(old(Entries()), old(vmem[..]), ops)
    {
      hide Linked, OwnsUsed, EntriesOf, Apply;
      var i := 0;
      assert ops[0..] == ops;
      while i < |ops|
        invariant 0 <= i <= |ops| && Valid()
        invariant BlinkScreen.DrawAll(Entries(), vmem[..], ops[i..]) ==
          BlinkScreen.DrawAll(old(Entries()), old(vmem[..]), ops)
      {
        assert ops[i..][1..] == ops[i + 1..];
        Do(ops[i]);
        i := i + 1;
      }
    }
  }
}
