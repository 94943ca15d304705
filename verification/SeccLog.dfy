/** The logger's ring buffer as a bounded queue of the latest entries. */
module SeccLog {
  import opened Bytes

  const LOG_BUFFER_SIZE: nat := 1000
  const MESSAGE_SIZE: nat := 512
  const COMPONENT_SIZE: nat := 32

  datatype Level = Debug | Info | Warn | ErrorLevel | Critical

  datatype Category = Main | SessionCategory | Transport | V2G | StateMachine | Exi | Simulator | Security

  datatype Entry = Entry(
    timestampMs: nat,
    level: Level,
    category: Category,
    sessionId: Uint32,
    message: string,
    component: string)

  /** What fits a char array of the given size, terminator included. */
  function Truncated(s: string, size: nat): (t: string)
    requires size > 0
    ensures |t| < size && t <= s && (|s| < size ==> t == s)
  {
    if |s| < size then s else s[..size - 1]
  }

  function Min(a: nat, b: nat): nat {
    if a < b then a else b
  }

  function MakeEntry(now: nat, level: Level, category: Category, sessionId: Uint32,
                     component: string, message: string): Entry {
    Entry(now, level, category, sessionId, Truncated(message, MESSAGE_SIZE), Truncated(component, COMPONENT_SIZE))
  }

  /** A queue of at most 1000 entries that drops its oldest to take a new one. */
  function Push<T>(q: seq<T>, e: T): seq<T> {
    if |q| < LOG_BUFFER_SIZE then q + [e] else q[1..] + [e]
  }

  function PushAll<T>(q: seq<T>, es: seq<T>): seq<T>
    decreases |es|
  {
    if es == [] then q else Push(PushAll(q, es[..|es| - 1]), es[|es| - 1])
  }

  /** The last 1000 elements, or all of them if there are fewer. */
  function Latest<T>(es: seq<T>): seq<T> {
    if |es| <= LOG_BUFFER_SIZE then es else es[|es| - LOG_BUFFER_SIZE..]
  }

  /** After any sequence of entries the queue is its last min(total, 1000), oldest first. */
  lemma {:induction false} QueueIsLatest<T>(es: seq<T>)
    ensures PushAll([], es) == Latest(es)
    decreases |es|
  {
    if es != [] {
      var init, last := es[..|es| - 1], es[|es| - 1];
      QueueIsLatest(init);
      assert es == init + [last];
    }
  }

  predicate Distinct<T(==)>(q: seq<T>) {
    forall i, j :: 0 <= i < j < |q| ==> q[i] != q[j]
  }

  /**
   * The oldest n entries and the newest n are the same exactly when entries |q| - n places
   * apart are equal; if no two entries are, exactly when n takes in the whole queue.
   */
  lemma OldestIsNewestIff<T>(q: seq<T>, n: nat)
    requires 0 < n <= |q|
    ensures q[..n] == q[|q| - n..] <==> forall i :: 0 <= i < n ==> q[i] == q[i + (|q| - n)]
    ensures Distinct(q) ==> (q[..n] == q[|q| - n..] <==> n == |q|)
  {
    var d := |q| - n;
    assert forall i :: 0 <= i < n ==> q[..n][i] == q[i] && q[d..][i] == q[i + d];
    if q[..n] == q[d..] {
      forall i | 0 <= i < n
        ensures q[i] == q[i + d]
      {
        assert q[..n][i] == q[d..][i];
      }
      assert q[0] == q[0 + d];
    }
    if forall i :: 0 <= i < n ==> q[i] == q[i + d] {
      SameSlices(q, n, d);
    }
  }

  lemma SameSlices<T>(q: seq<T>, n: nat, d: nat)
    requires d + n == |q| && forall i :: 0 <= i < n ==> q[i] == q[i + d]
    ensures q[..n] == q[d..]
  {
    forall i | 0 <= i < n
      ensures q[..n][i] == q[d..][i]
    {
      assert q[..n][i] == q[i] && q[i] == q[i + d] && q[d..][i] == q[d + i];
    }
  }

  lemma PushAllSnoc<T>(q: seq<T>, es: seq<T>, e: T)
    ensures PushAll(q, es + [e]) == Push(PushAll(q, es), e)
  {
    assert (es + [e])[..|es|] == es;
  }

  /** The array index of the i-th entry counted from tail. */
  function Slot(tail: nat, i: nat): (n: nat)
    ensures n < LOG_BUFFER_SIZE
  {
    (tail + i) % LOG_BUFFER_SIZE
  }

  /** The count entries of a full array of slots, from tail on, wrapping at its end. */
  function View<T>(slots: seq<T>, tail: nat, count: nat): (q: seq<T>)
    requires |slots| == LOG_BUFFER_SIZE
    ensures |q| == count
  {
    seq(count, i requires 0 <= i < count && |slots| == LOG_BUFFER_SIZE => slots[Slot(tail, i)])
  }

  lemma ViewAt<T>(slots: seq<T>, tail: nat, count: nat, i: nat)
    requires |slots| == LOG_BUFFER_SIZE && i < count
    ensures View(slots, tail, count)[i] == slots[Slot(tail, i)]
  {
  }

  lemma SlotsDiffer(tail: nat, i: nat, j: nat)
    requires i < j < i + LOG_BUFFER_SIZE
    ensures Slot(tail, i) != Slot(tail, j)
  {
  }

  /** Stepping head, or head and tail together, keeps head count slots ahead of tail. */
  lemma NextSlot(tail: nat, count: nat)
    requires tail < LOG_BUFFER_SIZE
    ensures Slot(Slot(tail, count), 1) == Slot(tail, count + 1)
    ensures count == LOG_BUFFER_SIZE ==>
              Slot(tail, count) == tail && Slot(tail, count + 1) == Slot(Slot(tail, 1), LOG_BUFFER_SIZE)
  {
  }

  lemma PushWithRoom<T>(slots: seq<T>, tail: nat, count: nat, e: T)
    requires |slots| == LOG_BUFFER_SIZE && count < LOG_BUFFER_SIZE
    ensures View(slots[Slot(tail, count) := e], tail, count + 1) == Push(View(slots, tail, count), e)
  {
    var v := View(slots[Slot(tail, count) := e], tail, count + 1);
    forall i | 0 <= i < count
      ensures v[i] == View(slots, tail, count)[i]
    {
      SlotsDiffer(tail, i, count);
    }
  }

  lemma PushWhenFull<T>(slots: seq<T>, tail: nat, e: T)
    requires |slots| == LOG_BUFFER_SIZE && tail < LOG_BUFFER_SIZE
    ensures View(slots[tail := e], Slot(tail, 1), LOG_BUFFER_SIZE) == Push(View(slots, tail, LOG_BUFFER_SIZE), e)
  {
    var v, q := View(slots[tail := e], Slot(tail, 1), LOG_BUFFER_SIZE), View(slots, tail, LOG_BUFFER_SIZE);
    assert Slot(tail, 0) == tail;
    forall i | 0 <= i < LOG_BUFFER_SIZE - 1
      ensures v[i] == q[i + 1]
    {
      assert Slot(Slot(tail, 1), i) == Slot(tail, i + 1);
      SlotsDiffer(tail, 0, i + 1);
    }
    assert Slot(Slot(tail, 1), LOG_BUFFER_SIZE - 1) == tail;
  }

  class RingBuffer {
    const entries: array<Entry>
    var head: nat
    var tail: nat
    var count: nat
    var initialized: bool

    /** Every entry logged since the buffer was last reset. */
    ghost var logged: seq<Entry>

    ghost predicate Valid()
      reads this, entries
    {
      && entries.Length == LOG_BUFFER_SIZE
      && tail < LOG_BUFFER_SIZE && count <= LOG_BUFFER_SIZE
      && head == Slot(tail, count)
      && View(entries[..], tail, count) == PushAll([], logged)
    }

    ghost function Contents(): (q: seq<Entry>)
      requires Valid()
      reads this, entries
      ensures |q| == count
    {
      View(entries[..], tail, count)
    }

    /** What the buffer holds after any sequence of calls. */
    lemma HoldsLatest()
      requires Valid()
      ensures Contents() == Latest(logged)
      ensures Contents() == if |logged| <= 1000 then logged else logged[|logged| - 1000..]
      ensures count == Min(|logged|, 1000)
    {
      QueueIsLatest(logged);
    }

    constructor ()
      ensures Valid() && !initialized && logged == [] && fresh(entries)
    {
      entries := new Entry[LOG_BUFFER_SIZE](_ => Entry(0, Debug, Main, 0, "", ""));
      head, tail, count, initialized, logged := 0, 0, 0, false, [];
    }

    /** secc_log_init; `fileOk` tells whether the log file could be opened. */
    method Init(fileOk: bool) returns (rc: int)
      requires Valid()
      modifies this
      ensures Valid()
      ensures old(initialized) ==> rc == 0 && initialized && logged == old(logged) && Contents() == old(Contents())
      ensures !old(initialized) ==> logged == [] && initialized == fileOk && rc == if fileOk then 0 else -1
    {
      if initialized {
        return 0;
      }
      head, tail, count, logged := 0, 0, 0, [];
      if !fileOk {
        return -1;
      }
      initialized := true;
      rc := 0;
    }

    /** The insertion step of secc_log. */
    method Insert(entry: Entry)
      requires Valid()
      modifies this`head, this`tail, this`count, this`logged, entries
      ensures Valid() && Contents() == Push(old(Contents()), entry) && logged == old(logged) + [entry]
    {
      hide View;
      PushAllSnoc([], logged, entry);
      logged := logged + [entry];
      ghost var slots := entries[..];
      NextSlot(tail, count);
      entries[head] := entry;
      head := (head + 1) % LOG_BUFFER_SIZE;
      assert entries[..] == slots[Slot(tail, count) := entry];
      if count < LOG_BUFFER_SIZE {
        PushWithRoom(slots, tail, count, entry);
        count := count + 1;
      } else {
        PushWhenFull(slots, tail, entry);
        tail := (tail + 1) % LOG_BUFFER_SIZE;
      }
    }

    /** secc_log: one push onto the queue, or nothing before initialization. */
    method Log(now: nat, level: Level, category: Category, sessionId: Uint32, component: string, message: string)
      requires Valid()
      modifies this`head, this`tail, this`count, this`logged, entries
      ensures Valid() && Contents() == Latest(logged)
      ensures logged == old(logged) +
                        if initialized then [MakeEntry(now, level, category, sessionId, component, message)] else []
      ensures !initialized ==> Contents() == old(Contents())
      ensures initialized ==>
                var e := Contents()[count - 1];
                && e.message <= message && |e.message| == Min(|message|, 511)
                && e.component <= component && |e.component| == Min(|component|, 31)
                && e.timestampMs == now && e.level == level && e.category == category && e.sessionId == sessionId
    {
      if initialized {
        Insert(MakeEntry(now, level, category, sessionId, component, message));
      }
      HoldsLatest();
    }

    /** secc_log_get_recent: the oldest min(count, maxEntries) entries, changing nothing else. */
    method GetRecent(out: array?<Entry>, maxEntries: int) returns (n: nat)
      requires Valid() && out != entries
      requires out != null ==> maxEntries <= out.Length
      modifies out
      ensures n == if !initialized || out == null || maxEntries <= 0 then 0
                   else if count < maxEntries then count else maxEntries
      ensures Valid() && Contents() == old(Contents()) == Latest(logged)
      ensures out != null ==> n <= out.Length && out[..n] == Latest(logged)[..n] && out[n..] == old(out[n..])
      ensures n > 0 && Distinct(Latest(logged)) ==>
                (out[..n] == Latest(logged)[count - n..] <==> count <= maxEntries)
    {
      hide Distinct, Latest;
      HoldsLatest();
      if !initialized || out == null || maxEntries <= 0 {
        return 0;
      }
      n := if count < maxEntries then count else maxEntries;
      CopyOut(out, n);
      if n > 0 {
        OldestIsNewestIff(Latest(logged), n);
      }
    }

    /** The copy loop: the first n entries from tail on. */
    method CopyOut(out: array<Entry>, n: nat)
      requires Valid() && out != entries && n <= count && n <= out.Length
      modifies out
      ensures Valid() && Contents() == old(Contents())
      ensures out[..n] == Contents()[..n] && out[n..] == old(out[n..])
    {
      hide View, PushAll;
      var readPos := tail;
      for i := 0 to n
        invariant readPos == Slot(tail, i) && entries[..] == old(entries[..])
        invariant out[..i] == Contents()[..i] && out[n..] == old(out[n..])
      {
        ViewAt(entries[..], tail, count, i);
        NextSlot(tail, i);
        out[i] := entries[readPos];
        readPos := (readPos + 1) % LOG_BUFFER_SIZE;
      }
    }
  }
}
