/** The ring buffer behind the message-debugging endpoint. */
module DebugBuffer {

  type Byte = bv8

  datatype Entry = Entry(subject: string, timestamp: int, payload: seq<Byte>)

  const MAX_PAYLOAD := 1024

  function Cut(data: seq<Byte>): seq<Byte> {
    if |data| > MAX_PAYLOAD then data[..MAX_PAYLOAD] else data
  }

  lemma CutIsPrefix(data: seq<Byte>)
    ensures Cut(data) <= data && |Cut(data)| == Min(|data|, 1024)
  {
  }

  function Min(a: nat, b: nat): nat { if a < b then a else b }

  /** The most recent entries of a history, at most limit of them, newest first. */
  function NewestFirst<T>(history: seq<T>, limit: nat): seq<T> {
    seq(Min(|history|, limit), (i: nat) requires i < |history| => history[|history| - 1 - i])
  }

  lemma NewestFirstAt<T>(history: seq<T>, limit: nat)
    ensures var r := NewestFirst(history, limit);
      && |r| == Min(|history|, limit)
      && forall i :: 0 <= i < |r| ==> r[i] == history[|history| - 1 - i]
  {
  }

  /** A new entry goes to the front; the oldest falls off when the buffer is full. */
  lemma NewestFirstStep<T>(history: seq<T>, e: T, limit: nat)
    requires limit > 0
    ensures NewestFirst(history + [e], limit)
      == [e] + if |history| < limit then NewestFirst(history, limit) else NewestFirst(history, limit)[..limit - 1]
  {
  }

  /** Once limit entries have been appended, nothing that came before can be seen. */
  lemma OlderEntriesAreGone<T>(before: seq<T>, recent: seq<T>, limit: nat)
    requires |recent| >= limit
    ensures NewestFirst(before + recent, limit) == NewestFirst(recent, limit)
  {
    var all := before + recent;
    forall i | 0 <= i < limit
      ensures NewestFirst(all, limit)[i] == NewestFirst(recent, limit)[i]
    {
      assert all[|all| - 1 - i] == recent[|recent| - 1 - i];
    }
  }

  function Mod(x: nat, n: nat): (m: nat)
    requires n > 0
    ensures m < n
  {
    x % n
  }

  lemma ModBelowTwice(x: nat, n: nat)
    requires x < 2 * n
    ensures Mod(x, n) == if x < n then x else x - n
  {
    if x >= n {
      assert x == n + (x - n);
      assert x / n == 1;
    }
  }

  /** The entries in the ring, oldest first. */
  function Slots<T>(ring: seq<T>, next: nat, full: bool): seq<T>
    requires next <= |ring|
  {
    if full then ring[next..] + ring[..next] else ring[..next]
  }

  /** The ring holds the whole history, or the last |ring| entries of it. */
  ghost predicate Holds<T>(ring: seq<T>, next: nat, full: bool, history: seq<T>) {
    && next < |ring|
    && var kept := Slots(ring, next, full);
    && |kept| == Min(|history|, |ring|)
    && forall i :: 0 <= i < |kept| ==> kept[i] == history[|history| - |kept| + i]
  }

  function Advance(next: nat, size: nat): nat { if next + 1 == size then 0 else next + 1 }

  lemma AdvanceIsMod(next: nat, size: nat)
    requires next < size
    ensures Mod(next + 1, size) == Advance(next, size)
  {
    ModBelowTwice(next + 1, size);
  }

  lemma HoldsStep<T>(ring: seq<T>, next: nat, full: bool, history: seq<T>, e: T)
    requires Holds(ring, next, full, history)
    ensures Holds(ring[next := e], Advance(next, |ring|), full || next + 1 == |ring|, history + [e])
  {
    var kept, next' := Slots(ring, next, full), Advance(next, |ring|);
    var kept' := Slots(ring[next := e], next', full || next + 1 == |ring|);
    if full {
      assert kept' == kept[1..] + [e];
    } else {
      assert kept' == kept + [e];
    }
  }

  lemma SlotAt<T>(ring: seq<T>, next: nat, full: bool, i: nat)
    requires next < |ring| && i < |Slots(ring, next, full)|
    ensures var at := Mod(if full then next + i else i, |ring|);
      ring[at] == Slots(ring, next, full)[i]
  {
    ModBelowTwice(if full then next + i else i, |ring|);
  }

  lemma HeldNewestFirst<T>(ring: seq<T>, next: nat, full: bool, history: seq<T>)
    requires Holds(ring, next, full, history)
    ensures NewestFirst(Slots(ring, next, full), |Slots(ring, next, full)|) == NewestFirst(history, |ring|)
  {
    var kept := Slots(ring, next, full);
    forall i | 0 <= i < |kept|
      ensures NewestFirst(kept, |kept|)[i] == NewestFirst(history, |ring|)[i]
    {
      assert history[|history| - |kept|..][|kept| - 1 - i] == history[|history| - 1 - i];
    }
  }

  method ReverseInPlace<T>(entries: array<T>)
    modifies entries
    ensures entries[..] == NewestFirst(old(entries[..]), entries.Length)
  {
    var n := entries.Length;
    var i, j := 0, n - 1;
    while i < j
      invariant 0 <= i <= n && j == n - 1 - i && i <= j + 2
      invariant forall k :: 0 <= k < i ==>
        entries[k] == old(entries[n - 1 - k]) && entries[n - 1 - k] == old(entries[k])
      invariant forall k :: i <= k <= j ==> entries[k] == old(entries[k])
    {
      entries[i], entries[j] := entries[j], entries[i];
      i, j := i + 1, j - 1;
    }
  }

  class Buffer {
    const cap: nat
    const buf: array<Entry>
    var next: nat
    var full: bool
    ghost var history: seq<Entry>    // everything ever appended

    ghost predicate Valid()
      reads this, buf
    {
      cap > 0 && buf.Length == cap && Holds(buf[..], next, full, history)
    }

    constructor (capacity: nat)
      requires capacity > 0
      ensures Valid() && fresh(buf) && cap == capacity && history == []
    {
      cap := capacity;
      buf := new Entry[capacity](_ => Entry("", 0, []));
      next, full, history := 0, false, [];
    }

    method Append(subject: string, data: seq<Byte>, now: int)
      requires Valid()
      modifies this, buf
      ensures Valid()
      ensures history == old(history) + [Entry(subject, now, Cut(data))]
    {
      hide Mod;
      var payload := data;
      if |payload| > MAX_PAYLOAD {
        payload := payload[..MAX_PAYLOAD];
      }
      var e := Entry(subject, now, payload);
      HoldsStep(buf[..], next, full, history, e);
      AdvanceIsMod(next, cap);
      assert next < cap == |buf[..]|;
      hide Holds;
      hide Slots;
      ghost var ring := buf[..][next := e];
      buf[next] := e;
      assert buf[..] == ring;
      history := history + [e];
      next := Mod(next + 1, cap);
      if next == 0 {
        full := true;
      }
    }

    /** The copying loop: the entries from the oldest on, which are at these slots. */
    method Collect(start: nat, count: nat, ghost kept: seq<Entry>) returns (entries: array<Entry>)
      requires buf.Length == cap > 0 && |kept| == count
      requires forall i :: 0 <= i < count ==> buf[Mod(start + i, cap)] == kept[i]
      ensures fresh(entries) && entries[..] == kept
    {
      hide Mod;
      entries := new Entry[count](_ => Entry("", 0, []));
      var i := 0;
      while i < count
        invariant 0 <= i <= count == entries.Length
        invariant forall k :: 0 <= k < i ==> entries[k] == kept[k]
      {
        var idx := Mod(start + i, cap);
        entries[i] := buf[idx];
        i := i + 1;
      }
    }

    /** What a reader sees: the last min(n, cap) entries, newest first, for every wrap position. */
    method Read() returns (entries: array<Entry>)
      requires Valid()
      ensures fresh(entries) && entries[..] == NewestFirst(history, cap)
    {
      var start, count := 0, next;
      if full {
        count, start := cap, next;
      }
      ghost var kept := Slots(buf[..], next, full);
      HeldNewestFirst(buf[..], next, full, history);
      forall i | 0 <= i < count ensures buf[Mod(start + i, cap)] == kept[i] {
        SlotAt(buf[..], next, full, i);
      }
      assert buf.Length == cap > 0;
      hide *;
      entries := Collect(start, count, kept);
      ReverseInPlace(entries);
    }
  }
}
