/** A bounded queue whose producer never waits: when the queue is full, the oldest entry goes. The
    client keeps two of them, for connection states and for background errors. */
module DropOldest {
  import opened Wrappers

  const STATE_QUEUE_SIZE := 25
  const MAX_BACKGROUND_ERRORS := 10

  /** The items of `s` whose mark is `which`, in order. */
  function Select<T>(s: seq<T>, marks: seq<bool>, which: bool): (r: seq<T>)
    requires |s| == |marks|
  {
    if s == [] then []
    else
      var n := |s| - 1;
      Select(s[..n], marks[..n], which) + if marks[n] == which then [s[n]] else []
  }

  lemma {:induction false} SelectSplits<T>(s: seq<T>, marks: seq<bool>)
    requires |s| == |marks|
    ensures |Select(s, marks, true)| + |Select(s, marks, false)| == |s|
  {
    if s != [] {
      SelectSplits(s[..|s| - 1], marks[..|s| - 1]);
    }
  }

  lemma SelectSnoc<T>(s: seq<T>, marks: seq<bool>, x: T, mark: bool, which: bool)
    requires |s| == |marks|
    ensures Select(s + [x], marks + [mark], which) == Select(s, marks, which) + if mark == which then [x] else []
  {
    assert (s + [x])[..|s|] == s && (marks + [mark])[..|s|] == marks;
  }

  /** What a post drops when the consumer takes `pace(0)` and then `pace(1)` items beside it. */
  function Overflow<T>(items: seq<T>, capacity: nat, pace: nat -> nat): seq<T> {
    if |items| == capacity && pace(0) == 0 && pace(1) < capacity then [items[pace(1)]] else []
  }

  /** Items leave from the front only, each delivered or dropped: `marks` says which for each that has left. */
  class Queue<T> {
    const capacity: nat
    var items: seq<T>
    ghost var posted: seq<T>
    ghost var marks: seq<bool>
    ghost var delivered: seq<T>
    ghost var dropped: seq<T>

    ghost predicate Valid()
      reads this
    {
      && 0 < capacity && |items| <= capacity
      && |marks| + |items| == |posted| && items == posted[|marks|..]
      && delivered == Select(posted[..|marks|], marks, true) && dropped == Select(posted[..|marks|], marks, false)
    }

    constructor (capacity: nat)
      requires capacity > 0
      ensures Valid() && this.capacity == capacity && items == [] && posted == [] && delivered == [] && dropped == []
    {
      this.capacity := capacity;
      items, posted, marks, delivered, dropped := [], [], [], [], [];
    }

    /** The oldest item leaves, one way or the other. */
    method Leave(mark: bool) returns (x: T)
      requires Valid() && items != []
      modifies this
      ensures Valid() && posted == old(posted) && marks == old(marks) + [mark]
      ensures x == old(items)[0] && items == old(items)[1..]
      ensures delivered == old(delivered) + if mark then [x] else []
      ensures dropped == old(dropped) + if mark then [] else [x]
    {
      x := items[0];
      ghost var k := |marks|;
      assert posted[..k + 1] == posted[..k] + [x];
      SelectSnoc(posted[..k], marks, x, mark, true);
      SelectSnoc(posted[..k], marks, x, mark, false);
      items := items[1..];
      marks := marks + [mark];
      if mark {
        delivered := delivered + [x];
      } else {
        dropped := dropped + [x];
      }
    }

    method Take() returns (r: Option<T>)
      requires Valid()
      modifies this
      ensures Valid() && posted == old(posted) && dropped == old(dropped)
      ensures if old(items) == [] then r == None && items == [] && delivered == old(delivered)
              else && r == Some(old(items)[0]) && items == old(items)[1..]
                   && delivered == old(delivered) + [old(items)[0]]
    {
      if items == [] {
        return None;
      }
      var x := Leave(true);
      r := Some(x);
    }

    /** The consumer, running beside a post, takes up to `n` items. */
    method Consume(n: nat)
      requires Valid()
      modifies this
      ensures Valid() && posted == old(posted) && dropped == old(dropped)
      ensures var k := Least(n, |old(items)|);
              items == old(items)[k..] && delivered == old(delivered) + old(items)[..k]
    {
      for i := 0 to n
        invariant Valid() && posted == old(posted) && dropped == old(dropped)
        invariant i <= |old(items)| && items == old(items)[i..] && delivered == old(delivered) + old(items)[..i]
      {
        if items == [] {
          break;
        }
        var x := Leave(true);
        assert old(items)[..i + 1] == old(items)[..i] + [x];
      }
    }

    method Append(x: T)
      requires Valid() && |items| < capacity
      modifies this
      ensures Valid() && posted == old(posted) + [x] && items == old(items) + [x]
      ensures marks == old(marks) && delivered == old(delivered) && dropped == old(dropped)
    {
      ghost var k := |marks|;
      assert (posted + [x])[..k] == posted[..k] && (posted + [x])[k..] == posted[k..] + [x];
      items := items + [x];
      posted := posted + [x];
    }

    /** The first select: the item goes in unless the queue is full. */
    method Offer(x: T, n: nat) returns (done: bool)
      requires Valid()
      modifies this
      ensures Valid() && dropped == old(dropped) && old(delivered) <= delivered
      ensures done <==> |old(items)| < capacity || n > 0
      ensures if done then posted == old(posted) + [x] && items != [] && items[|items| - 1] == x
              else posted == old(posted) && items == old(items)
    {
      Consume(n);
      done := |items| < capacity;
      if done {
        Append(x);
      }
    }

    /** The second select: unless the consumer takes all, the oldest item left is dropped. */
    method MakeRoom(n: nat)
      requires Valid() && items != []
      modifies this
      ensures Valid() && posted == old(posted) && |items| < |old(items)| && old(delivered) <= delivered
      ensures dropped == old(dropped) + if n < |old(items)| then [old(items)[n]] else []
    {
      Consume(n);
      if items != [] {
        var _ := Leave(false);
      }
    }

    /** Post, with the consumer free to take `pace(r)` items before the `r`-th select. The new item is pending
        last; what was delivered or dropped before stays so; and an item is dropped exactly when the queue is full
        and the consumer, before the second select, has not emptied it: the oldest one then pending. */
    method Post(x: T, pace: nat -> nat)
      requires Valid()
      modifies this
      ensures Valid() && posted == old(posted) + [x] && items != [] && items[|items| - 1] == x
      ensures old(delivered) <= delivered && dropped == old(dropped) + Overflow(old(items), capacity, pace)
    {
      var round := 0;
      while true
        invariant Valid() && posted == old(posted) && |items| <= |old(items)|
        invariant old(delivered) <= delivered
        invariant if round == 0 then items == old(items) && dropped == old(dropped)
                  else |items| < capacity && dropped == old(dropped) + Overflow(old(items), capacity, pace)
        decreases |items|
      {
        var done := Offer(x, pace(round));
        if done {
          return;
        }
        MakeRoom(pace(round + 1));
        round := round + 2;
      }
    }

    /** The post of a background error: to make room it waits for an item to take. If the consumer empties a
        full queue in just that moment there is none, and the post is stuck until another one comes. */
    method PostWaiting(x: T, pace: nat -> nat) returns (stuck: bool)
      requires Valid()
      modifies this
      ensures stuck <==> |old(items)| == capacity && pace(0) == 0 && pace(1) >= capacity
      ensures Valid() && posted == if stuck then old(posted) else old(posted) + [x]
      ensures if stuck then items == [] else items != [] && items[|items| - 1] == x
      ensures old(delivered) <= delivered && dropped == old(dropped) + Overflow(old(items), capacity, pace)
    {
      stuck := false;
      Consume(pace(0));
      if |items| == capacity {
        Consume(pace(1));
        if items == [] {
          return true;
        }
        var _ := Leave(false);
      }
      Append(x);
    }

    /** Nothing is lost without a trace: delivered, dropped and pending make up what was posted. */
    lemma Conservation()
      requires Valid()
      ensures |delivered| + |dropped| + |items| == |posted|
    {
      SelectSplits(posted[..|marks|], marks);
    }
  }
}
