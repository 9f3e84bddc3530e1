/** Circular storage: the items of a ring as a sequence. */
module Rings {

  /** The size items from head on, wrapping round at the end of the buffer. */
  function Items<T>(buf: seq<T>, head: nat, size: nat): (s: seq<T>)
    requires size == 0 || head < |buf|
    ensures |s| == size
  {
    seq(size, i requires 0 <= i < size => buf[(head + i) % |buf|])
  }

  lemma Wrap(i: nat, n: nat)
    requires i < 2 * n
    ensures i % n == if i < n then i else i - n
  {
    if i >= n {
      assert i == n + (i - n);
    }
  }

  lemma WrapAll(n: nat)
    ensures forall i :: 0 <= i < n ==> i % n == i
    ensures forall i {:trigger i % n} :: n <= i < 2 * n ==> i % n == i - n
  {
    forall i | 0 <= i < 2 * n ensures i % n == if i < n then i else i - n {
      Wrap(i, n);
    }
  }

  lemma ItemAt<T>(buf: seq<T>, head: nat, size: nat, i: nat)
    requires head < |buf| && i < size
    ensures Items(buf, head, size)[i] == buf[(head + i) % |buf|]
  {
  }

  lemma ItemsFromStart<T>(buf: seq<T>, size: nat)
    requires size <= |buf| && 0 < |buf|
    ensures Items(buf, 0, size) == buf[..size]
  {
    WrapAll(|buf|);
  }

  /** Writing just behind the last item appends it. */
  lemma PushedBack<T>(buf: seq<T>, head: nat, size: nat, x: T)
    requires head < |buf| && size < |buf|
    ensures Items(buf[(head + size) % |buf| := x], head, size + 1) == Items(buf, head, size) + [x]
  {
    WrapAll(|buf|);
  }

  /** Writing just before the first item puts it in front. */
  lemma PushedFront<T>(buf: seq<T>, head: nat, size: nat, x: T)
    requires head < |buf| && size < |buf|
    ensures var h := (head - 1 + |buf|) % |buf|;
            Items(buf[h := x], h, size + 1) == [x] + Items(buf, head, size)
  {
    WrapAll(|buf|);
  }

  /** Overwriting the first item and moving on drops it. */
  lemma PoppedFront<T>(buf: seq<T>, head: nat, size: nat, x: T)
    requires head < |buf| && 0 < size <= |buf|
    ensures Items(buf[head := x], (head + 1) % |buf|, size - 1) == Items(buf, head, size)[1..]
    ensures Items(buf, head, size)[0] == buf[head]
  {
    WrapAll(|buf|);
  }

  lemma PoppedBack<T>(buf: seq<T>, head: nat, size: nat, x: T)
    requires head < |buf| && 0 < size <= |buf|
    ensures var last := (head + size - 1) % |buf|;
            && Items(buf[last := x], head, size - 1) == Items(buf, head, size)[..size - 1]
            && Items(buf, head, size)[size - 1] == buf[last]
  {
    WrapAll(|buf|);
  }

  /** In a full ring, writing over the first item and moving on drops it and appends. */
  lemma PushedFull<T>(buf: seq<T>, head: nat, x: T)
    requires head < |buf|
    ensures Items(buf[head := x], (head + 1) % |buf|, |buf|) == Items(buf, head, |buf|)[1..] + [x]
  {
    WrapAll(|buf|);
  }
}

/** The growable double-ended queue. */
module Deques {
  import opened Options
  import opened Rings

  function Reversed<T>(s: seq<T>): seq<T> {
    if s == [] then [] else Reversed(s[1..]) + [s[0]]
  }

  /** Doubles a capacity until it suffices. */
  method DoubledUpTo(start: nat, need: nat) returns (capacity: nat)
    requires start > 0
    ensures capacity >= need && capacity >= start
  {
    capacity := start;
    while capacity < need
      invariant capacity >= start
    {
      capacity := capacity * 2;
    }
  }

  class Deque<T> {
    const zero: T
    var buf: array?<T>
    var head: nat
    var size: nat

    ghost predicate Valid()
      reads this
    {
      if buf == null then head == 0 && size == 0
      else head < buf.Length && size <= buf.Length
    }

    ghost function Contents(): seq<T>
      requires Valid()
      reads this, buf
    {
      if buf == null then [] else Items(buf[..], head, size)
    }

    constructor (zero: T)
      ensures Valid() && Contents() == [] && buf == null
    {
      this.zero, buf, head, size := zero, null, 0, 0;
    }

    function PhysicalIndex(i: nat): nat
      requires buf != null && buf.Length > 0
      reads this
    {
      (head + i) % buf.Length
    }

    /** Makes room for more items without changing the contents. */
    method EnsureCapacity(extra: nat)
      requires Valid()
      modifies this`buf, this`head
      ensures Valid() && Contents() == old(Contents())
      ensures buf != null && size + extra <= buf.Length && size == old(size)
      ensures buf == old(buf) || fresh(buf)
    {
      if buf == null {
        var capacity := DoubledUpTo(4, extra);
        buf := new T[capacity](_ => zero);
        return;
      }
      var need := size + extra;
      if need <= buf.Length {
        return;
      }
      var newCap := buf.Length * 2;
      newCap := DoubledUpTo(if newCap < 4 then 4 else newCap, need);
      MoveTo(newCap);
    }

    /** Copies the items, in order, to the start of a new buffer. */
    method MoveTo(newCap: nat)
      requires Valid() && buf != null && size <= newCap && newCap > 0
      modifies this`buf, this`head
      ensures Valid() && Contents() == old(Contents())
      ensures buf != null && buf.Length == newCap && fresh(buf)
    {
      hide Items;
      ghost var was := Contents();
      var newBuf := new T[newCap](_ => zero);
      for i := 0 to size
        invariant buf == old(buf) && head == old(head) && buf[..] == old(buf[..])
        invariant newBuf[..i] == was[..i]
      {
        newBuf[i] := buf[PhysicalIndex(i)];
        ItemAt(buf[..], head, size, i);
        assert newBuf[..i + 1] == newBuf[..i] + [was[i]];
      }
      ItemsFromStart(newBuf[..], size);
      buf, head := newBuf, 0;
    }

    method PushFrontOne(item: T)
      requires Valid()
      modifies this, buf
      ensures Valid() && Contents() == [item] + old(Contents())
      ensures buf != null && (buf == old(buf) || fresh(buf))
    {
      hide Items;
      EnsureCapacity(1);
      if size == 0 {
        PutFirst(item);
      } else {
        StepBack(item);
      }
    }

    /** The first item of an empty deque goes to the start of the buffer. */
    method PutFirst(item: T)
      requires Valid() && buf != null && size == 0 < buf.Length
      modifies this`head, this`size, buf
      ensures Valid() && Contents() == [item]
    {
      head := 0;
      buf[0] := item;
      size := 1;
    }

    /** Moves the head back one slot and puts the item there. */
    method StepBack(item: T)
      requires Valid() && buf != null && 0 < size < buf.Length
      modifies this`head, this`size, buf
      ensures Valid() && Contents() == [item] + old(Contents())
    {
      hide Items;
      PushedFront(buf[..], head, size, item);
      ghost var was := buf[..];
      head := (head - 1 + buf.Length) % buf.Length;
      buf[head] := item;
      assert buf[..] == was[head := item];
      size := size + 1;
    }

    method PushBackOne(item: T)
      requires Valid()
      modifies this, buf
      ensures Valid() && Contents() == old(Contents()) + [item]
      ensures buf != null && (buf == old(buf) || fresh(buf))
    {
      hide Items;
      EnsureCapacity(1);
      PushedBack(buf[..], head, size, item);
      ghost var was := buf[..];
      var idx := PhysicalIndex(size);
      buf[idx] := item;
      assert buf[..] == was[idx := item];
      size := size + 1;
    }

    /** Items are pushed one at a time, so they end up at the front in reverse. */
    method PushFront(items: seq<T>)
      requires Valid()
      modifies this, buf
      ensures Valid() && Contents() == Reversed(items) + old(Contents())
      ensures buf == old(buf) || fresh(buf)
    {
      hide Items;
      for i := 0 to |items|
        invariant Valid() && Contents() == Reversed(items[..i]) + old(Contents())
        invariant buf == old(buf) || fresh(buf)
      {
        PushFrontOne(items[i]);
        ReversedAppend(items[..i], items[i]);
        assert items[..i + 1] == items[..i] + [items[i]];
      }
      assert items[..|items|] == items;
    }

    method PushBack(items: seq<T>)
      requires Valid()
      modifies this, buf
      ensures Valid() && Contents() == old(Contents()) + items
      ensures buf == old(buf) || fresh(buf)
    {
      hide Items;
      for i := 0 to |items|
        invariant Valid() && Contents() == old(Contents()) + items[..i]
        invariant buf == old(buf) || fresh(buf)
      {
        PushBackOne(items[i]);
        assert items[..i + 1] == items[..i] + [items[i]];
      }
      assert items[..|items|] == items;
    }

    method PopFront() returns (r: Option<T>)
      requires Valid()
      modifies this, buf
      ensures Valid() && buf == old(buf)
      ensures if old(Contents()) == [] then r == None && Contents() == []
              else r == Some(old(Contents())[0]) && Contents() == old(Contents())[1..]
    {
      hide Items;
      if size == 0 {
        return None;
      }
      PoppedFront(buf[..], head, size, zero);
      ghost var was := buf[..];
      var value := buf[head];
      buf[head] := zero;
      assert buf[..] == was[head := zero];
      head := (head + 1) % buf.Length;
      size := size - 1;
      if size == 0 {
        head := 0;
      }
      return Some(value);
    }

    method PopBack() returns (r: Option<T>)
      requires Valid()
      modifies this, buf
      ensures Valid() && buf == old(buf)
      ensures var n := |old(Contents())| - 1;
              if n < 0 then r == None && Contents() == []
              else r == Some(old(Contents())[n]) && Contents() == old(Contents())[..n]
    {
      hide Items;
      if size == 0 {
        return None;
      }
      PoppedBack(buf[..], head, size, zero);
      ghost var was := buf[..];
      var idx := PhysicalIndex(size - 1);
      var value := buf[idx];
      buf[idx] := zero;
      assert buf[..] == was[idx := zero];
      size := size - 1;
      if size == 0 {
        head := 0;
      }
      return Some(value);
    }

    method Get(index: int) returns (r: Option<T>)
      requires Valid()
      ensures r == if 0 <= index < |Contents()| then Some(Contents()[index]) else None
    {
      hide Items;
      if index < 0 || index >= size {
        return None;
      }
      ItemAt(buf[..], head, size, index);
      return Some(buf[PhysicalIndex(index)]);
    }

    method Values() returns (out: seq<T>)
      requires Valid()
      ensures out == Contents()
    {
      if size == 0 {
        return [];
      }
      hide Items;
      ghost var all := Contents();
      out := [];
      for i := 0 to size
        invariant out == all[..i]
      {
        ItemAt(buf[..], head, size, i);
        assert all[i] == buf[PhysicalIndex(i)];
        assert all[..i + 1] == all[..i] + [all[i]];
        out := out + [buf[PhysicalIndex(i)]];
      }
      assert all[..size] == all;
    }

    /** Forgets all items, overwriting them. */
    method Clear()
      requires Valid()
      modifies this, buf
      ensures Valid() && buf == old(buf) && Contents() == []
    {
      for i := 0 to size
        invariant head == old(head) && size == old(size) && buf == old(buf) && Valid()
      {
        buf[PhysicalIndex(i)] := zero;
      }
      head, size := 0, 0;
    }
  }

  lemma {:induction false} ReversedAt<T>(items: seq<T>, i: nat)
    requires i < |items|
    ensures |Reversed(items)| == |items| && Reversed(items)[i] == items[|items| - 1 - i]
  {
    if |items| > 1 {
      ReversedAt(items[1..], if i < |items| - 1 then i else 0);
    }
  }

  ghost predicate Palindrome<T>(items: seq<T>) {
    forall i :: 0 <= i < |items| ==> items[i] == items[|items| - 1 - i]
  }

  /** The comment on PushFront promises that items keep their order at the front. Over
      any contents, the code does so exactly for items that read the same backwards. */
  lemma PushFrontOrder<T>(items: seq<T>, s: seq<T>)
    ensures Reversed(items) + s == items + s <==> Palindrome(items)
  {
    ReversedLength(items);
    forall i | 0 <= i < |items| ensures Reversed(items)[i] == items[|items| - 1 - i] {
      ReversedAt(items, i);
    }
    hide Reversed;
    assert (items + s)[..|items|] == items;
    assert Reversed(items) + s == items + s ==> Reversed(items) == items;
    if Palindrome(items) {
      assert Reversed(items) == items;
    }
  }

  lemma {:induction false} ReversedLength<T>(items: seq<T>)
    ensures |Reversed(items)| == |items|
  {
    if items != [] {
      ReversedLength(items[1..]);
    }
  }

  /** In particular two or more distinct items never keep it. */
  lemma DistinctOrderLost<T>(items: seq<T>, s: seq<T>)
    requires forall i, j :: 0 <= i < j < |items| ==> items[i] != items[j]
    ensures Reversed(items) + s == items + s <==> |items| <= 1
  {
    PushFrontOrder(items, s);
    hide Reversed;
    if |items| > 1 {
      assert items[0] != items[|items| - 1];
    }
  }

  datatype Op<T> = OpPushFront(items: seq<T>) | OpPushBack(items: seq<T>) | OpPopFront | OpPopBack | OpGet(index: int)

  /** The same operation on a plain sequence: its contents afterwards and its answer. */
  function OnSeq<T>(s: seq<T>, op: Op<T>): (seq<T>, Option<T>) {
    match op
    case OpPushFront(items) => (Reversed(items) + s, None)
    case OpPushBack(items) => (s + items, None)
    case OpPopFront => if s == [] then (s, None) else (s[1..], Some(s[0]))
    case OpPopBack => if s == [] then (s, None) else (s[..|s| - 1], Some(s[|s| - 1]))
    case OpGet(i) => (s, if 0 <= i < |s| then Some(s[i]) else None)
  }

  function AfterRun<T>(script: seq<Op<T>>): (seq<T>, seq<Option<T>>) {
    if script == [] then ([], [])
    else
      var n := |script| - 1;
      var (s, answers) := AfterRun(script[..n]);
      var (s', answer) := OnSeq(s, script[n]);
      (s', answers + [answer])
  }

  /** Every run on a deque, through wrap-round and growth, is that run on a plain sequence. */
  method Replay<T>(zero: T, script: seq<Op<T>>) returns (contents: seq<T>, answers: seq<Option<T>>)
    ensures (contents, answers) == AfterRun(script)
  {
    hide Items;
    var d := new Deque(zero);
    answers := [];
    for i := 0 to |script|
      invariant d.Valid() && fresh(d) && (d.buf != null ==> fresh(d.buf))
      invariant (d.Contents(), answers) == AfterRun(script[..i])
    {
      assert script[..i + 1][..i] == script[..i];
      var answer := None;
      match script[i] {
        case OpPushFront(items) => d.PushFront(items);
        case OpPushBack(items) => d.PushBack(items);
        case OpPopFront => answer := d.PopFront();
        case OpPopBack => answer := d.PopBack();
        case OpGet(index) => answer := d.Get(index);
      }
      answers := answers + [answer];
    }
    assert script[..|script|] == script;
    contents := d.Values();
  }

  lemma {:induction false} ReversedAppend<T>(s: seq<T>, x: T)
    ensures Reversed(s + [x]) == [x] + Reversed(s)
  {
    if s == [] {
      assert s + [x] == [x];
    } else {
      assert (s + [x])[1..] == s[1..] + [x];
      ReversedAppend(s[1..], x);
    }
  }
}

/** The fixed-capacity ring buffer, whose Push evicts the oldest item when full. */
module RingBuffers {
  import opened Options
  import opened Rings

  class RingBuffer<T> {
    const zero: T
    const buf: array<T>
    var head: nat
    var size: nat

    ghost predicate Valid()
      reads this
    {
      size <= buf.Length && (if buf.Length == 0 then head == 0 else head < buf.Length)
    }

    ghost function Contents(): seq<T>
      requires Valid()
      reads this, buf
    {
      Items(buf[..], head, size)
    }

    constructor (capacity: int, zero: T)
      ensures Valid() && Contents() == [] && fresh(buf)
      ensures buf.Length == if capacity < 0 then 0 else capacity
    {
      this.zero := zero;
      buf := new T[if capacity < 0 then 0 else capacity](_ => zero);
      head, size := 0, 0;
    }

    /** Appends, evicting the oldest item when full; without capacity it does nothing. */
    method Push(value: T) returns (evicted: Option<T>)
      requires Valid()
      modifies this, buf
      ensures Valid()
      ensures var before := old(Contents());
              if buf.Length == 0 then evicted == None && Contents() == []
              else if |before| < buf.Length then evicted == None && Contents() == before + [value]
              else evicted == Some(before[0]) && Contents() == before[1..] + [value]
    {
      hide Items;
      if buf.Length == 0 {
        return None;
      }
      ghost var was := buf[..];
      if size < buf.Length {
        PushedBack(buf[..], head, size, value);
        var tail := (head + size) % buf.Length;
        buf[tail] := value;
        assert buf[..] == was[tail := value];
        size := size + 1;
        return None;
      }
      PoppedFront(buf[..], head, size, value);
      PushedFull(buf[..], head, value);
      evicted := Some(buf[head]);
      buf[head] := value;
      assert buf[..] == was[head := value];
      head := (head + 1) % buf.Length;
    }

    method Pop() returns (r: Option<T>)
      requires Valid()
      modifies this, buf
      ensures Valid()
      ensures if old(Contents()) == [] then r == None && Contents() == []
              else r == Some(old(Contents())[0]) && Contents() == old(Contents())[1..]
    {
      hide Items;
      if size == 0 {
        return None;
      }
      PoppedFront(buf[..], head, size, zero);
      ghost var was := buf[..];
      var value := buf[head];
      buf[head] := zero;
      assert buf[..] == was[head := zero];
      head := (head + 1) % buf.Length;
      size := size - 1;
      if size == 0 {
        head := 0;
      }
      return Some(value);
    }

    method Peek() returns (r: Option<T>)
      requires Valid()
      ensures r == if Contents() == [] then None else Some(Contents()[0])
    {
      hide Items;
      if size == 0 {
        return None;
      }
      ItemAt(buf[..], head, size, 0);
      PoppedFront(buf[..], head, size, zero);
      return Some(buf[head]);
    }

    method Values() returns (out: seq<T>)
      requires Valid()
      ensures out == Contents()
    {
      hide Items;
      out := [];
      for i := 0 to size
        invariant out == Contents()[..i]
      {
        ItemAt(buf[..], head, size, i);
        assert Contents()[..i + 1] == Contents()[..i] + [Contents()[i]];
        out := out + [buf[(head + i) % buf.Length]];
      }
      assert Contents()[..size] == Contents();
    }
  }

  datatype Op<T> = OpPush(value: T) | OpPop

  /** The same run on a plain sequence: what came out, by eviction or by Pop, and what
      is inside. */
  function AfterRun<T>(capacity: nat, script: seq<Op<T>>): (seq<T>, seq<T>) {
    if script == [] then ([], [])
    else
      var n := |script| - 1;
      var (out, inside) := AfterRun(capacity, script[..n]);
      match script[n]
      case OpPush(v) =>
        if capacity == 0 then (out, inside)
        else if |inside| < capacity then (out, inside + [v])
        else if inside == [] then (out, [v])
        else (out + [inside[0]], inside[1..] + [v])
      case OpPop =>
        if inside == [] then (out, inside) else (out + [inside[0]], inside[1..])
  }

  function PushedBy<T>(script: seq<Op<T>>): seq<T> {
    if script == [] then []
    else
      var n := |script| - 1;
      PushedBy(script[..n]) + if script[n].OpPush? then [script[n].value] else []
  }

  /** Conservation: with capacity, in every run the items that came out followed by the
      items still inside are the items pushed, in order, and no more than the capacity
      are inside. Without capacity nothing is ever held. */
  lemma {:induction false} NothingLost<T>(capacity: nat, script: seq<Op<T>>)
    ensures var (out, inside) := AfterRun(capacity, script);
            && |inside| <= capacity
            && (capacity > 0 ==> out + inside == PushedBy(script))
            && (capacity == 0 ==> out == [])
  {
    if script != [] {
      var n := |script| - 1;
      NothingLost(capacity, script[..n]);
      var (out, inside) := AfterRun(capacity, script[..n]);
      if inside != [] {
        assert inside == [inside[0]] + inside[1..];
      }
    }
  }

  /** Every run on a ring buffer is that run on a plain sequence. */
  method Replay<T>(capacity: nat, zero: T, script: seq<Op<T>>) returns (out: seq<T>, inside: seq<T>)
    ensures (out, inside) == AfterRun(capacity, script)
  {
    hide Items;
    var ring := new RingBuffer(capacity, zero);
    out := [];
    for i := 0 to |script|
      invariant ring.Valid() && fresh(ring) && fresh(ring.buf) && ring.buf.Length == capacity
      invariant (out, ring.Contents()) == AfterRun(capacity, script[..i])
    {
      assert script[..i + 1][..i] == script[..i];
      var gone: Option<T>;
      match script[i] {
        case OpPush(value) => gone := ring.Push(value);
        case OpPop => gone := ring.Pop();
      }
      if gone.Some? {
        out := out + [gone.value];
      }
    }
    assert script[..|script|] == script;
    inside := ring.Values();
  }
}
