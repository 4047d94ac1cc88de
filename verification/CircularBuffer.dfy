/** The keyboard's circular buffer, which overwrites its oldest element when it is full. */
module CircularBuffer {
  import opened Machine

  const BUFFER_SIZE := 256

  /** Pushing onto a deque bounded by cap drops the front when there is no room. */
  function Pushed(s: seq<u8>, x: u8, cap: nat): (r: seq<u8>)
    requires |s| <= cap && cap > 0
    ensures |r| <= cap
  {
    if |s| < cap then s + [x] else s[1..] + [x]
  }

  datatype Op = PushBack(x: u8) | PopFront | PopBack

  function Applied(s: seq<u8>, op: Op, cap: nat): (r: seq<u8>)
    requires |s| <= cap && cap > 0
    ensures |r| <= cap
  {
    match op
    case PushBack(x) => Pushed(s, x, cap)
    case PopFront => if s == [] then s else s[1..]
    case PopBack => if s == [] then s else s[..|s| - 1]
  }

  function AppliedAll(s: seq<u8>, ops: seq<Op>, cap: nat): (r: seq<u8>)
    requires |s| <= cap && cap > 0
    ensures |r| <= cap
    decreases |ops|
  {
    if ops == [] then s else AppliedAll(Applied(s, ops[0], cap), ops[1..], cap)
  }

  function Pushes(xs: seq<u8>): (ops: seq<Op>)
    ensures |ops| == |xs| && forall i :: 0 <= i < |xs| ==> ops[i] == PushBack(xs[i])
  {
    seq(|xs|, i requires 0 <= i < |xs| => PushBack(xs[i]))
  }

  function Newest(s: seq<u8>, n: nat): seq<u8>
  {
    if |s| <= n then s else s[|s| - n..]
  }

  /** After any run of pushes the buffer holds the newest elements, oldest first. */
  lemma {:induction false} PushesKeepNewest(s: seq<u8>, xs: seq<u8>, cap: nat)
    requires |s| <= cap && cap > 0
    ensures AppliedAll(s, Pushes(xs), cap) == Newest(s + xs, cap)
    decreases |xs|
  {
    hide Newest, Pushed, Pushes;
    if xs == [] {
      assert s + xs == s;
      NewestOfFew(s, cap);
    } else {
      var t := Pushed(s, xs[0], cap);
      PushesKeepNewest(t, xs[1..], cap);
      assert Pushes(xs)[1..] == Pushes(xs[1..]);
      assert [xs[0]] + xs[1..] == xs;
      NewestAfterPush(s, xs[0], xs[1..], cap);
    }
  }

  lemma {:induction false} NewestOfFew(s: seq<u8>, n: nat)
    requires |s| <= n
    ensures Newest(s, n) == s
  {
  }

  lemma {:induction false} NewestAfterPush(s: seq<u8>, x: u8, rest: seq<u8>, cap: nat)
    requires |s| <= cap && cap > 0
    ensures Newest(Pushed(s, x, cap) + rest, cap) == Newest(s + ([x] + rest), cap)
  {
    assert s + ([x] + rest) == s + [x] + rest;
    if |s| == cap {
      assert s + [x] + rest == [s[0]] + (s[1..] + [x] + rest);
    }
  }

  function Pops(op: Op, k: nat): (ops: seq<Op>)
    ensures |ops| == k && forall i :: 0 <= i < k ==> ops[i] == op
  {
    seq(k, _ => op)
  }

  /** k pops from the front leave all but the first k elements. */
  lemma {:induction false} FrontPops(s: seq<u8>, k: nat, cap: nat)
    requires k <= |s| <= cap && cap > 0
    ensures AppliedAll(s, Pops(PopFront, k), cap) == s[k..]
    decreases k
  {
    if k > 0 {
      assert Pops(PopFront, k)[1..] == Pops(PopFront, k - 1);
      FrontPops(s[1..], k - 1, cap);
      assert s[1..][k - 1..] == s[k..];
    }
  }

  /** k pops from the back leave all but the last k elements. */
  lemma {:induction false} BackPops(s: seq<u8>, k: nat, cap: nat)
    requires k <= |s| <= cap && cap > 0
    ensures AppliedAll(s, Pops(PopBack, k), cap) == s[..|s| - k]
    decreases k
  {
    if k > 0 {
      assert Pops(PopBack, k)[1..] == Pops(PopBack, k - 1);
      BackPops(s[..|s| - 1], k - 1, cap);
      assert s[..|s| - 1][..|s| - k] == s[..|s| - k];
    }
  }

  /** What an array p holds between begin and end, going round its last index. */
  function Ring(p: seq<u8>, begin: nat, end: nat, full: bool): (s: seq<u8>)
    requires begin < |p| && end < |p| && (full ==> begin == end)
    ensures |s| <= |p| && (|s| == |p| <==> full)
  {
    if begin < end then p[begin..end]
    else if full || end < begin then p[begin..] + p[..end]
    else []
  }

  function Next(i: nat, cap: nat): nat
  {
    if i + 1 == cap then 0 else i + 1
  }

  function Prev(i: nat, cap: nat): int
  {
    if i == 0 then cap - 1 else i - 1
  }

  lemma NextIsMod(i: nat, cap: nat)
    requires i < cap
    ensures (i + 1) % cap == Next(i, cap)
    ensures (i + cap - 1) % cap == Prev(i, cap)
  {
  }

  lemma {:induction false} PushRing(p: seq<u8>, b: nat, e: nat, full: bool, x: u8)
    requires b < |p| && e < |p| && (full ==> b == e)
    ensures var p' := if full then p[b := x] else p[e := x];
            var b' := if full then Next(b, |p|) else b;
            var e' := Next(e, |p|);
            Ring(p', b', e', e' == b') == Pushed(Ring(p, b, e, full), x, |p|)
  {
    var s, n := Ring(p, b, e, full), |p|;
    if full {
      if b + 1 == n {
        assert s[1..] == p[..b];
      } else {
        assert s[1..] == p[b + 1..] + p[..b];
      }
    } else if e + 1 == n {
      if b == 0 { assert p[e := x][0..] + p[e := x][..0] == s + [x]; }
    } else if e + 1 == b {
      assert p[e := x][b..] + p[e := x][..b] == s + [x];
    }
  }

  lemma {:induction false} PopFrontRing(p: seq<u8>, b: nat, e: nat, full: bool)
    requires b < |p| && e < |p| && (full ==> b == e) && Ring(p, b, e, full) != []
    ensures var s := Ring(p, b, e, full);
            s[0] == p[b] && Ring(p, Next(b, |p|), e, false) == s[1..]
  {
  }

  lemma {:induction false} PopBackRing(p: seq<u8>, b: nat, e: nat, full: bool)
    requires b < |p| && e < |p| && (full ==> b == e) && Ring(p, b, e, full) != []
    ensures var s := Ring(p, b, e, full);
            Prev(e, |p|) >= 0 && s[|s| - 1] == p[Prev(e, |p|)] && Ring(p, b, Prev(e, |p|), false) == s[..|s| - 1]
  {
  }

  class Buffer {
    const ptr: array<u8>
    var begin: int
    var end: int
    var capacity: int
    var full: bool

    /** The guard at the head of every operation. */
    predicate InRange()
      reads this
    {
      0 <= begin && 0 <= end && 0 < capacity && begin < capacity && end < capacity
    }

    ghost predicate Valid()
      reads this
    {
      InRange() && capacity == ptr.Length && (full ==> begin == end)
    }

    /** From begin, round the end of the array, up to end. */
    ghost function Contents(): (s: seq<u8>)
      requires Valid()
      reads this, ptr
      ensures |s| <= capacity
      ensures |s| == capacity <==> full
    {
      Ring(ptr[..], begin, end, full)
    }

    /** circular_buffer_create */
    constructor ()
      ensures Valid() && fresh(ptr) && capacity == BUFFER_SIZE && Contents() == []
    {
      ptr := new u8[BUFFER_SIZE];
      begin, end, capacity, full := 0, 0, BUFFER_SIZE, false;
    }

    /** circular_buffer_empty: 1 or 0, and -1 for a buffer whose fields are out of range. */
    method Empty() returns (r: int)
      ensures !InRange() ==> r == -1
      ensures Valid() ==> (r == if Contents() == [] then 1 else 0)
    {
      if !InRange() {
        return -1;
      }
      if !full && end == begin {
        return 1;
      }
      return 0;
    }

    /** circular_buffer_full */
    method Full() returns (r: int)
      ensures !InRange() ==> r == -1
      ensures Valid() ==> (r == if |Contents()| == capacity then 1 else 0)
      ensures r != 0 <==> !InRange() || full
    {
      if !InRange() {
        return -1;
      }
      return if full then 1 else 0;
    }

    /** circular_buffer_push_back */
    method Push(value: u8) returns (err: int)
      requires InRange() ==> Valid()
      modifies this`begin, this`end, this`full, ptr
      ensures err == if old(InRange()) then 0 else 1
      ensures old(InRange()) ==> Valid() && Contents() == Applied(old(Contents()), PushBack(value), capacity)
      ensures old(InRange()) ==>
                Contents() == (if |old(Contents())| < capacity then old(Contents()) else old(Contents())[1..]) + [value]
      ensures !old(InRange()) ==> unchanged(this) && unchanged(ptr)
    {
      if !InRange() {
        return 1;
      }
      hide Ring, Pushed;
      PushRing(ptr[..], begin, end, full, value);
      NextIsMod(begin, capacity);
      NextIsMod(end, capacity);
      if !full {
        ptr[end] := value;
      } else {
        ptr[begin] := value;
        begin := (begin + 1) % capacity;
      }
      end := (end + 1) % capacity;
      full := end == begin;
      return 0;
    }

    /** circular_buffer_pop_front */
    method TakeFront() returns (value: u8, err: int)
      requires InRange() ==> Valid()
      modifies this`begin, this`full
      ensures err == if !old(InRange()) then 1 else if old(Contents()) == [] then 2 else 0
      ensures old(InRange()) ==> Valid() && Contents() == Applied(old(Contents()), PopFront, capacity)
      ensures value == if err == 0 then old(Contents())[0] else 0
      ensures err == 0 ==> Contents() == old(Contents())[1..]
      ensures err != 0 ==> unchanged(this)
    {
      if !InRange() {
        return 0, 1;
      }
      var empty := Empty();
      if empty != 0 {
        return 0, 2;
      }
      PopFrontRing(ptr[..], begin, end, full);
      NextIsMod(begin, capacity);
      hide Ring;
      value := ptr[begin];
      begin := (begin + 1) % capacity;
      var f := Full();
      if f != 0 {
        full := false;
      }
      err := 0;
    }

    /** circular_buffer_pop_back */
    method TakeBack() returns (value: u8, err: int)
      requires InRange() ==> Valid()
      modifies this`end, this`full
      ensures err == if !old(InRange()) then 1 else if old(Contents()) == [] then 2 else 0
      ensures old(InRange()) ==> Valid() && Contents() == Applied(old(Contents()), PopBack, capacity)
      ensures value == if err == 0 then old(Contents())[|old(Contents())| - 1] else err
      ensures err == 0 ==> Contents() == old(Contents())[..|old(Contents())| - 1]
      ensures err != 0 ==> unchanged(this)
    {
      if !InRange() {
        return 1, 1;
      }
      var empty := Empty();
      if empty != 0 {
        return 2, 2;
      }
      PopBackRing(ptr[..], begin, end, full);
      NextIsMod(end, capacity);
      hide Ring;
      end := (end + capacity - 1) % capacity;
      value := ptr[end];
      var f := Full();
      if f != 0 {
        full := false;
      }
      err := 0;
    }

    /** Any run of operations leaves in the buffer what it leaves in a bounded deque. */
    method Perform(ops: seq<Op>)
      requires Valid()
      modifies this`begin, this`end, this`full, ptr
      ensures Valid() && Contents() == AppliedAll(old(Contents()), ops, capacity)
    {
      ghost var goal := AppliedAll(Contents(), ops, capacity);
      var i := 0;
      while i < |ops|
        invariant 0 <= i <= |ops| && Valid()
        invariant AppliedAll(Contents(), ops[i..], capacity) == goal
      {
        match ops[i] {
          case PushBack(x) => var err := Push(x);
          case PopFront => var value, err := TakeFront();
          case PopBack => var value, err := TakeBack();
        }
        i := i + 1;
      }
    }

    /** Pushing values that there is room for and popping as many from the front gives the oldest
        first: what was in the buffer before, then the values in the order pushed. */
    method FirstInFirstOut(xs: seq<u8>) returns (ys: seq<u8>)
      requires Valid() && |Contents()| + |xs| <= capacity
      modifies this`begin, this`end, this`full, ptr
      ensures Valid() && |ys| == |xs| && ys + Contents() == old(Contents()) + xs
    {
      hide Ring;
      PushAll(xs);
      ys := TakeAll(|xs|);
    }

    method PushAll(xs: seq<u8>)
      requires Valid() && |Contents()| + |xs| <= capacity
      modifies this`begin, this`end, this`full, ptr
      ensures Valid() && Contents() == old(Contents()) + xs
    {
      hide Ring, Applied;
      ghost var before := Contents();
      var i := 0;
      while i < |xs|
        invariant 0 <= i <= |xs| && Valid() && Contents() == before + xs[..i]
      {
        assert before + xs[..i] + [xs[i]] == before + xs[..i + 1];
        var err := Push(xs[i]);
        i := i + 1;
      }
      assert xs[..i] == xs;
    }

    method TakeAll(k: nat) returns (ys: seq<u8>)
      requires Valid() && k <= |Contents()|
      modifies this`begin, this`full
      ensures Valid() && |ys| == k && ys + Contents() == old(Contents())
    {
      hide Ring, Applied;
      ghost var before := Contents();
      ys := [];
      while |ys| < k
        invariant |ys| <= k && Valid() && ys + Contents() == before
      {
        ghost var rest := Contents();
        var value, err := TakeFront();
        assert ys + [value] + rest[1..] == ys + rest;
        ys := ys + [value];
      }
    }
  }
}
