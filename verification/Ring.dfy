/** The fixed-capacity ring buffer with modular indexing, and the tail reader that
    it serves. */
module Ring {
  import opened Prelude

  /** The newest `n` elements: what a bounded queue keeps when it drops the oldest. */
  function Newest<T>(s: seq<T>, n: nat): seq<T> {
    if |s| > n then s[|s| - n..] else s
  }

  /** Bounding after every element or only at the end comes to the same. */
  lemma NewestStep<T>(s: seq<T>, x: T, n: nat)
    ensures Newest(Newest(s, n) + [x], n) == Newest(s + [x], n)
  {
  }

  lemma NewestAppend<T>(s: seq<T>, x: T, n: nat)
    requires |s| <= n
    ensures |s| < n ==> Newest(s + [x], n) == s + [x]
    ensures |s| == n && n > 0 ==> Newest(s + [x], n) == s[1..] + [x]
  {
  }

  lemma NewestAt<T>(s: seq<T>, n: nat)
    ensures var r := Newest(s, n);
            |r| == Min(n, |s|) && forall i :: 0 <= i < |r| ==> r[i] == s[|s| - |r| + i]
  {
  }

  lemma ModWrap(x: nat, n: nat)
    requires x < 2 * n
    ensures x % n == if x < n then x else x - n
  {
    if x >= n {
      assert x == n + (x - n);
      assert (x - n) % n == x - n;
      ModAdd(x - n, n);
    }
  }

  lemma ModAdd(x: nat, n: nat)
    requires x < n
    ensures (n + x) % n == x
  {
    var q := (n + x) / n;
    assert n + x == q * n + (n + x) % n;
    assert q >= 2 ==> q * n >= 2 * n;
    assert q <= 0 ==> q * n <= 0;
  }

  /** The place of the `i`-th oldest element. */
  function Slot(head: nat, i: nat, capacity: nat): nat {
    if head + i < capacity then head + i else head + i - capacity
  }

  lemma SlotIsMod(head: nat, i: nat, capacity: nat)
    requires head < capacity && i <= capacity
    ensures (head + i) % capacity == Slot(head, i, capacity)
  {
    ModWrap(head + i, capacity);
  }

  /** The ring's invariant over the slots as a sequence. */
  predicate Filled<T>(slots: seq<Option<T>>, head: nat, size: nat) {
    && size <= |slots|
    && (head < |slots| || (head == 0 && |slots| == 0))
    && forall i :: 0 <= i < size ==> slots[Slot(head, i, |slots|)].Some?
  }

  /** The elements in the slots, oldest first. */
  function View<T>(slots: seq<Option<T>>, head: nat, size: nat): (s: seq<T>)
    requires Filled(slots, head, size)
    ensures |s| == size && forall i :: 0 <= i < size ==> Some(s[i]) == slots[Slot(head, i, |slots|)]
  {
    seq(size, i requires 0 <= i < size => slots[Slot(head, i, |slots|)].value)
  }

  lemma OverwriteOldest<T>(slots: seq<Option<T>>, head: nat, item: T)
    requires Filled(slots, head, |slots|) && slots != []
    ensures var slots', head' := slots[head := Some(item)], Slot(head, 1, |slots|);
            Filled(slots', head', |slots|) &&
            View(slots', head', |slots|) == View(slots, head, |slots|)[1..] + [item]
  {
    var n := |slots|;
    var slots', head' := slots[head := Some(item)], Slot(head, 1, n);
    forall i | 0 <= i < n
      ensures slots'[Slot(head', i, n)] == if i == n - 1 then Some(item) else slots[Slot(head, i + 1, n)]
    {
    }
  }

  lemma AddNewest<T>(slots: seq<Option<T>>, head: nat, size: nat, item: T)
    requires Filled(slots, head, size) && size < |slots|
    ensures var slots' := slots[Slot(head, size, |slots|) := Some(item)];
            Filled(slots', head, size + 1) &&
            View(slots', head, size + 1) == View(slots, head, size) + [item]
  {
    var n := |slots|;
    var slots' := slots[Slot(head, size, n) := Some(item)];
    forall i | 0 <= i < size + 1
      ensures slots'[Slot(head, i, n)] == if i == size then Some(item) else slots[Slot(head, i, n)]
    {
    }
  }

  lemma TakeOldest<T>(slots: seq<Option<T>>, head: nat, size: nat)
    requires Filled(slots, head, size) && size > 0
    ensures var slots', head' := slots[head := None], Slot(head, 1, |slots|);
            Filled(slots', head', size - 1) &&
            View(slots', head', size - 1) == View(slots, head, size)[1..]
  {
    var n := |slots|;
    var slots', head' := slots[head := None], Slot(head, 1, n);
    forall i | 0 <= i < size - 1
      ensures slots'[Slot(head', i, n)] == slots[Slot(head, i + 1, n)]
    {
    }
  }

  lemma SizeBound<T>(slots: seq<Option<T>>, head: nat, size: nat)
    requires Filled(slots, head, size)
    ensures size <= |slots| && (slots != [] ==> head < |slots|)
    ensures |View(slots, head, size)| == size
  {
  }

  class RingBuffer<T> {
    const buffer: array<Option<T>>
    const capacity: nat
    var head: nat
    var size: nat

    ghost predicate Valid()
      reads this, buffer
    {
      buffer.Length == capacity && Filled(buffer[..], head, size)
    }

    /** The elements, oldest first. */
    ghost function Contents(): seq<T>
      requires Valid()
      reads this, buffer
    {
      View(buffer[..], head, size)
    }

    constructor (capacity: nat)
      ensures Valid() && Contents() == [] && this.capacity == capacity && fresh(buffer)
    {
      this.capacity := capacity;
      buffer := new Option<T>[capacity](_ => None);
      head, size := 0, 0;
    }

    /** A full buffer overwrites its oldest element. */
    method Push(item: T)
      requires Valid() && capacity >= 1
      modifies this, buffer
      ensures Valid() && Contents() == Newest(old(Contents()) + [item], capacity)
    {
      hide Filled, View, Newest, Slot;
      ghost var slots, before := buffer[..], Contents();
      SizeBound(slots, head, size);
      NewestAppend(before, item, capacity);
      if size == capacity {
        OverwriteOldest(slots, head, item);
        SlotIsMod(head, 1, capacity);
        buffer[head] := Some(item);
        assert buffer[..] == slots[head := Some(item)];
        head := (head + 1) % capacity;
        assert View(buffer[..], head, size) == before[1..] + [item];
      } else {
        AddNewest(slots, head, size, item);
        SlotIsMod(head, size, capacity);
        var idx := (head + size) % capacity;
        buffer[idx] := Some(item);
        assert buffer[..] == slots[idx := Some(item)];
        size := size + 1;
        assert View(buffer[..], head, size) == before + [item];
      }
    }

    method Pop() returns (item: Option<T>)
      requires Valid()
      modifies this, buffer
      ensures Valid()
      ensures old(Contents()) == [] ==> item == None && Contents() == []
      ensures old(Contents()) != [] ==>
                item == Some(old(Contents())[0]) && Contents() == old(Contents())[1..]
    {
      if size == 0 {
        return None;
      }
      hide View;
      TakeOldest(buffer[..], head, size);
      item := buffer[head];
      assert Slot(head, 0, capacity) == head;
      buffer[head] := None;
      ModWrap(head + 1, capacity);
      head := (head + 1) % capacity;
      size := size - 1;
    }

    method ToVec() returns (result: seq<T>)
      requires Valid()
      ensures result == Contents()
    {
      result := [];
      for i := 0 to size
        invariant result == Contents()[..i]
      {
        assert Some(Contents()[i]) == buffer[..][Slot(head, i, capacity)];
        ModWrap(head + i, capacity);
        var idx := (head + i) % capacity;
        if buffer[idx].Some? {
          result := result + [buffer[idx].value];
        }
      }
    }

    /** Empties the buffer. */
    method IntoVec() returns (result: seq<T>)
      requires Valid()
      modifies this, buffer
      ensures Valid() && Contents() == [] && result == old(Contents())
    {
      hide Valid, Contents;
      result := [];
      ghost var before := Contents();
      while true
        invariant Valid()
        invariant before == result + Contents()
        decreases |Contents()|
      {
        ghost var left := Contents();
        var item := Pop();
        if item.None? {
          break;
        }
        assert left == [item.value] + Contents();
        Assoc(result, [item.value], Contents());
        result := result + [item.value];
      }
    }
  }

  /** An iterator that reads the buffer without changing it. */
  class RingBufferIter<T> {
    const buffer: RingBuffer<T>
    var index: nat

    constructor (buffer: RingBuffer<T>)
      ensures this.buffer == buffer && index == 0
    {
      this.buffer, index := buffer, 0;
    }

    method Next() returns (item: Option<T>)
      requires buffer.Valid()
      modifies this
      ensures index == Min(old(index) + 1, if old(index) < |buffer.Contents()| then |buffer.Contents()| else old(index))
      ensures item == if old(index) < |buffer.Contents()| then Some(buffer.Contents()[old(index)]) else None
    {
      if index >= buffer.size {
        return None;
      }
      ModWrap(buffer.head + index, buffer.capacity);
      var idx := (buffer.head + index) % buffer.capacity;
      index := index + 1;
      assert buffer.buffer[..][idx] == Some(buffer.Contents()[old(index)]);
      item := buffer.buffer[idx];
    }
  }

  /** Running an iterator to its end yields the elements, oldest first. */
  method CollectIter<T>(buffer: RingBuffer<T>) returns (result: seq<T>)
    requires buffer.Valid()
    ensures result == buffer.Contents()
  {
    var iter := new RingBufferIter(buffer);
    result := [];
    var item := iter.Next();
    while item.Some?
      invariant buffer.Valid() && iter.buffer == buffer && fresh(iter)
      invariant |result| <= |buffer.Contents()| && result == buffer.Contents()[..|result|]
      invariant item == if |result| < |buffer.Contents()| then Some(buffer.Contents()[|result|]) else None
      invariant item.Some? ==> iter.index == |result| + 1
      decreases |buffer.Contents()| - |result|
    {
      result := result + [item.value];
      item := iter.Next();
    }
  }

  // -------------------------------------------------------------------- runs

  datatype Op<T> = PushItem(item: T) | PopItem

  /** The drop-oldest queue after a list of operations. */
  function Queue<T>(ops: seq<Op<T>>, capacity: nat): seq<T> {
    if ops == [] then []
    else
      var q := Queue(ops[..|ops| - 1], capacity);
      match ops[|ops| - 1]
      case PushItem(x) => Newest(q + [x], capacity)
      case PopItem => if q == [] then [] else q[1..]
  }

  function Pushed<T>(ops: seq<Op<T>>): seq<T> {
    if ops == [] then []
    else
      var p := Pushed(ops[..|ops| - 1]);
      if ops[|ops| - 1].PushItem? then p + [ops[|ops| - 1].item] else p
  }

  /** After any run the queue holds the latest pushes, without a gap and in order,
      and never more than its capacity. */
  lemma {:induction false} QueueIsRecent<T>(ops: seq<Op<T>>, capacity: nat)
    ensures IsRecent(Queue(ops, capacity), Pushed(ops), capacity)
  {
    if ops != [] {
      var q, p := Queue(ops[..|ops| - 1], capacity), Pushed(ops[..|ops| - 1]);
      QueueIsRecent(ops[..|ops| - 1], capacity);
      hide IsRecent, Newest;
      match ops[|ops| - 1]
      case PushItem(x) => RecentPush(q, p, x, capacity);
      case PopItem => RecentPop(q, p, capacity);
    }
  }

  /** `q` is the end of `p`, and no longer than the capacity. */
  predicate IsRecent<T(==)>(q: seq<T>, p: seq<T>, capacity: nat) {
    |q| <= capacity && |q| <= |p| && q == p[|p| - |q|..]
  }

  lemma RecentPush<T>(q: seq<T>, p: seq<T>, x: T, capacity: nat)
    requires IsRecent(q, p, capacity)
    ensures IsRecent(Newest(q + [x], capacity), p + [x], capacity)
  {
    NewestAt(q + [x], capacity);
    hide Newest;
  }

  lemma RecentPop<T>(q: seq<T>, p: seq<T>, capacity: nat)
    requires IsRecent(q, p, capacity)
    ensures IsRecent(if q == [] then [] else q[1..], p, capacity)
  {
  }

  /** The ring refines the queue over every run from an empty buffer. */
  method Perform<T>(capacity: nat, ops: seq<Op<T>>) returns (ring: RingBuffer<T>)
    requires capacity >= 1
    ensures ring.Valid() && ring.Contents() == Queue(ops, capacity)
  {
    ring := new RingBuffer<T>(capacity);
    for k := 0 to |ops|
      invariant fresh(ring) && fresh(ring.buffer) && ring.Valid() && ring.capacity == capacity
      invariant ring.Contents() == Queue(ops[..k], capacity)
    {
      assert ops[..k + 1][..k] == ops[..k];
      match ops[k] {
        case PushItem(x) => ring.Push(x);
        case PopItem => var _ := ring.Pop();
      }
    }
    assert ops[..|ops|] == ops;
  }

  // -------------------------------------------------------------------- tail

  datatype LineError = CannotRead

  /** The tail branch of `read_text_file`: the count of all lines and the last `t`. */
  method ReadTail<L>(lines: seq<Result<L, LineError>>, t: nat)
    returns (r: Result<(nat, seq<L>), LineError>)
    requires t >= 1
    ensures r.Err? <==> exists k :: 0 <= k < |lines| && lines[k].Err?
    ensures r.Ok? ==> r.value.0 == |lines| && |r.value.1| == Min(t, |lines|)
    ensures r.Ok? ==> forall i :: 0 <= i < |r.value.1| ==>
                        Ok(r.value.1[i]) == lines[|lines| - |r.value.1| + i]
  {
    hide Newest, RingBuffer.Valid, RingBuffer.Contents;
    var ring := new RingBuffer<L>(t);
    NewestAt<L>([], t);
    var total := 0;
    ghost var seen: seq<L> := [];
    while total < |lines|
      invariant total <= |lines| && |seen| == total
      invariant forall i :: 0 <= i < total ==> lines[i] == Ok(seen[i])
      invariant fresh(ring) && fresh(ring.buffer) && ring.Valid() && ring.capacity == t
      invariant ring.Contents() == Newest(seen, t)
    {
      var line := lines[total];
      total := total + 1;
      if line.Err? {
        return Err(line.error);
      }
      NewestStep(seen, line.value, t);
      ring.Push(line.value);
      seen := seen + [line.value];
    }
    var kept := ring.IntoVec();
    NewestAt(seen, t);
    r := Ok((total, kept));
  }
}
