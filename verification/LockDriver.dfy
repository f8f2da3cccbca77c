/** Naming, sorting and deciding: how a client turns a listing of lock nodes into a decision. */
module LockDriver {
  import opened Wrappers
  import opened GoStrings

  /** The text `lock-`. */
  const LOCK: Str := [0x6C, 0x6F, 0x63, 0x6B, 0x2D]

  const SUFFIX_WIDTH := 10

  /** Sequence numbers are the non-negative values of a signed 32-bit counter. */
  const SEQUENCE_LIMIT := 0x8000_0000

  // ---------- sequence suffixes ----------

  function Power10(width: nat): nat {
    if width == 0 then 1 else 10 * Power10(width - 1)
  }

  /** The last `width` decimal digits of `n`, zero-padded. */
  function Pad(n: nat, width: nat): (d: Str)
    ensures |d| == width
  {
    if width == 0 then [] else Pad(n / 10, width - 1) + [0x30 + n % 10]
  }

  /** What the server appends to a sequential node. */
  function Suffix(n: nat): Str {
    Pad(n, SUFFIX_WIDTH)
  }

  lemma {:induction false} PadOrder(a: nat, b: nat, width: nat)
    requires a < Power10(width) && b < Power10(width)
    ensures Less(Pad(a, width), Pad(b, width)) <==> a < b
    ensures Pad(a, width) == Pad(b, width) <==> a == b
  {
    if width > 0 {
      PadOrder(a / 10, b / 10, width - 1);
      LessSnoc(Pad(a / 10, width - 1), Pad(b / 10, width - 1), 0x30 + a % 10, 0x30 + b % 10);
      var pa, pb := Pad(a, width), Pad(b, width);
      assert pa[..width - 1] == Pad(a / 10, width - 1) && pb[..width - 1] == Pad(b / 10, width - 1);
      assert pa[width - 1] == 0x30 + a % 10 && pb[width - 1] == 0x30 + b % 10;
    }
  }

  lemma TenDigitsSuffice()
    ensures SEQUENCE_LIMIT < Power10(SUFFIX_WIDTH)
  {
  }

  /** Lexicographic order on suffixes is numeric order on the counter. */
  lemma SuffixOrder(a: nat, b: nat)
    requires a < SEQUENCE_LIMIT && b < SEQUENCE_LIMIT
    ensures Less(Suffix(a), Suffix(b)) <==> a < b
    ensures Suffix(a) == Suffix(b) <==> a == b
  {
    TenDigitsSuffice();
    PadOrder(a, b, SUFFIX_WIDTH);
  }

  lemma {:induction false} PadDigits(n: nat, width: nat, i: nat)
    requires i < width
    ensures 0x30 <= Pad(n, width)[i] <= 0x39
  {
    if i < width - 1 {
      PadDigits(n / 10, width - 1, i);
    }
  }

  /** The name a client's own node of number `n` gets. */
  function LockName(n: nat): Str {
    LOCK + Suffix(n)
  }

  /** The name a client looks for: its node's path less the length of the base path and one byte, which
      is a byte too many when the base path is the root. */
  function Sliced(atRoot: bool, name: Str): Str {
    if atRoot && name != [] then name[1..] else name
  }

  // ---------- sorting ----------

  /** The text after the last occurrence of the lock name; the whole string when there is none. */
  function FixForSorting(str: Str, lockName: Str): Str {
    var i := LastIndex(str, lockName);
    if i >= 0 then str[i + |lockName|..] else str
  }

  function Key(child: Str): Str {
    FixForSorting(child, LOCK)
  }

  /** `name` is a sequential lock node with number `n`, whatever stands before `lock-`. */
  predicate LockNode(name: Str, n: nat) {
    n < SEQUENCE_LIMIT && HasSuffix(name, LOCK + Suffix(n))
  }

  lemma KeyIsSuffix(name: Str, n: nat)
    requires LockNode(name, n)
    ensures Key(name) == Suffix(n)
  {
    var at := |name| - |LOCK| - SUFFIX_WIDTH;
    var tail := LOCK + Suffix(n);
    assert name[at..] == tail;
    assert name[at..at + |LOCK|] == tail[..|LOCK|] == LOCK;
    assert OccursAt(name, LOCK, at);
    forall j: nat | j > at && j + |LOCK| <= |name|
      ensures !OccursAt(name, LOCK, j)
    {
      assert name[j] == tail[j - at];
      if j - at >= |LOCK| {
        PadDigits(n, SUFFIX_WIDTH, j - at - |LOCK|);
      }
      assert name[j..j + |LOCK|][0] != LOCK[0];
    }
    assert LastIndex(name, LOCK) == at;
    assert name[at + |LOCK|..] == tail[|LOCK|..];
  }

  /** The order the sort uses: no later element compares less than an earlier one. */
  predicate Sorted(s: seq<Str>) {
    forall i, j :: 0 <= i < j < |s| ==> !Less(Key(s[j]), Key(s[i]))
  }

  lemma {:induction false} NotLessTransitive(a: Str, b: Str, c: Str)
    requires !Less(b, a) && !Less(c, b)
    ensures !Less(c, a)
  {
    if a != [] && b != [] && c != [] && a[0] == b[0] == c[0] {
      NotLessTransitive(a[1..], b[1..], c[1..]);
    }
  }

  lemma {:induction false} LessAsymmetric(a: Str, b: Str)
    requires Less(a, b)
    ensures !Less(b, a)
  {
    if a != [] && a[0] == b[0] {
      LessAsymmetric(a[1..], b[1..]);
    }
  }

  lemma LessIrreflexive(a: Str)
    ensures !Less(a, a)
  {
    if Less(a, a) {
      LessAsymmetric(a, a);
    }
  }

  /** In order up to `n`, save that the element at `j` may be too far back. */
  ghost predicate SortedBut(s: seq<Str>, n: nat, j: nat)
    requires n <= |s|
  {
    forall p, q :: 0 <= p < q < n && q != j ==> !Less(Key(s[q]), Key(s[p]))
  }

  lemma SwapKeepsOrder(s: seq<Str>, t: seq<Str>, n: nat, j: nat)
    requires 0 < j < n <= |s| && SortedBut(s, n, j) && Less(Key(s[j]), Key(s[j - 1]))
    requires t == s[j := s[j - 1]][j - 1 := s[j]]
    ensures SortedBut(t, n, j - 1) && multiset(t) == multiset(s)
  {
    LessAsymmetric(Key(s[j]), Key(s[j - 1]));
  }

  lemma PlacedRight(s: seq<Str>, n: nat, j: nat)
    requires j < n <= |s| && SortedBut(s, n, j) && (j > 0 ==> !Less(Key(s[j]), Key(s[j - 1])))
    ensures Sorted(s[..n])
  {
    forall p | 0 <= p < j
      ensures !Less(Key(s[j]), Key(s[p]))
    {
      if p < j - 1 {
        NotLessTransitive(Key(s[p]), Key(s[j - 1]), Key(s[j]));
      }
    }
  }

  /** Swap the element at `i` down to its place among those before it. */
  method SiftDown(a: array<Str>, i: nat)
    requires i < a.Length && Sorted(a[..i])
    modifies a
    ensures Sorted(a[..i + 1]) && multiset(a[..]) == multiset(old(a[..]))
  {
    var j: nat := i;
    while j > 0 && Less(Key(a[j]), Key(a[j - 1]))
      invariant j <= i && SortedBut(a[..], i + 1, j) && multiset(a[..]) == multiset(old(a[..]))
    {
      ghost var s := a[..];
      a[j], a[j - 1] := a[j - 1], a[j];
      SwapKeepsOrder(s, a[..], i + 1, j);
      j := j - 1;
    }
    PlacedRight(a[..], i + 1, j);
    assert a[..][..i + 1] == a[..i + 1];
  }

  /** Sorting in place, by comparing and swapping only: an ordered permutation. */
  method SortChildren(a: array<Str>)
    modifies a
    ensures Sorted(a[..]) && multiset(a[..]) == multiset(old(a[..]))
  {
    for i := 0 to a.Length
      invariant Sorted(a[..i]) && multiset(a[..]) == multiset(old(a[..]))
    {
      SiftDown(a, i);
    }
    assert a[..a.Length] == a[..];
  }

  // ---------- listings are in creation order ----------

  /** Every name of `names` is a lock node carrying its own number. */
  ghost predicate Numbered(names: set<Str>, number: map<Str, nat>) {
    && names <= number.Keys
    && (forall x :: x in names ==> LockNode(x, number[x]))
    && (forall x, y :: x in names && y in names && number[x] == number[y] ==> x == y)
  }

  /** `s` is some sorted arrangement of a listing. */
  ghost predicate SortedListing(s: seq<Str>, listing: set<Str>) {
    Sorted(s) && multiset(s) == multiset(listing)
  }

  lemma NoRepeats(s: seq<Str>, listing: set<Str>, i: nat, j: nat)
    requires multiset(s) == multiset(listing) && i < j < |s|
    ensures s[i] != s[j] && s[i] in listing && s[j] in listing
  {
    var a, b := s[..j], s[j..];
    assert s == a + b;
    assert a[i] == s[i] && b[0] == s[j];
    assert multiset(s) == multiset(a) + multiset(b);
    assert multiset(a)[a[i]] >= 1 && multiset(b)[b[0]] >= 1;
    assert s[i] in multiset(s) && s[j] in multiset(s) && multiset(listing)[s[i]] <= 1;
  }

  /** Whatever stands between them, two lock nodes are in a sorted listing in creation order. */
  lemma CreationOrder(s: seq<Str>, listing: set<Str>, number: map<Str, nat>, i: nat, j: nat)
    requires SortedListing(s, listing) && i < j < |s| && Numbered({s[i], s[j]}, number)
    ensures s[i] in listing && s[j] in listing && number[s[i]] < number[s[j]]
  {
    NoRepeats(s, listing, i, j);
    KeyIsSuffix(s[i], number[s[i]]);
    KeyIsSuffix(s[j], number[s[j]]);
    SuffixOrder(number[s[j]], number[s[i]]);
  }

  /** The numbered names of a listing that come before a given one. */
  ghost function Earlier(listing: set<Str>, number: map<Str, nat>, name: Str): set<Str>
    requires name in number
  {
    set x | x in listing && x in number && number[x] < number[name]
  }

  ghost function Names(s: seq<Str>): set<Str> {
    set x | x in s
  }

  lemma NamesSnoc(s: seq<Str>, x: Str)
    ensures Names(s + [x]) == Names(s) + {x}
  {
    assert forall y :: y in s + [x] <==> y in s || y == x;
  }

  lemma {:induction false} CountDistinct(s: seq<Str>, k: nat)
    requires k <= |s| && forall i, j :: 0 <= i < j < |s| ==> s[i] != s[j]
    ensures |Names(s[..k])| == k
  {
    if k > 0 {
      CountDistinct(s, k - 1);
      assert s[..k] == s[..k - 1] + [s[k - 1]];
      NamesSnoc(s[..k - 1], s[k - 1]);
    }
  }

  /** The position of a name in the sorted listing is the number of earlier nodes in it. */
  lemma PositionIsRank(s: seq<Str>, listing: set<Str>, number: map<Str, nat>, i: nat)
    requires SortedListing(s, listing) && Numbered(listing, number) && i < |s|
    ensures s[i] in listing && |Earlier(listing, number, s[i])| == i
    ensures forall j :: 0 <= j < |s| ==> (j < i <==> s[j] in Earlier(listing, number, s[i]))
  {
    assert forall x :: x in s <==> x in listing by {
      assert forall x :: x in s <==> x in multiset(s);
    }
    forall j | 0 <= j < |s|
      ensures s[j] in listing && (j < i <==> number[s[j]] < number[s[i]])
    {
      if j < i { CreationOrder(s, listing, number, j, i); }
      if i < j { CreationOrder(s, listing, number, i, j); }
    }
    forall k, j | 0 <= k < j < |s|
      ensures s[k] != s[j]
    {
      NoRepeats(s, listing, k, j);
    }
    CountDistinct(s, i);
    var earlier := Earlier(listing, number, s[i]);
    assert earlier == Names(s[..i]) by {
      forall x | x in earlier
        ensures x in s[..i]
      {
        var j :| 0 <= j < |s| && s[j] == x;
        assert s[..i][j] == x;
      }
    }
  }

  lemma SubsetCard<T>(a: set<T>, b: set<T>)
    requires a <= b
    ensures |a| <= |b|
  {
    assert a + (b - a) == b;
  }

  /** Names with smaller keys all stand before a given one. */
  lemma GroupFitsBefore(s: seq<Str>, listing: set<Str>, group: set<Str>, i: nat)
    requires SortedListing(s, listing) && group <= listing && i < |s|
    requires forall x :: x in group ==> Less(Key(x), Key(s[i]))
    ensures |group| <= i
  {
    LessIrreflexive(Key(s[i]));
    forall x | x in group
      ensures x in s[..i]
    {
      assert x in multiset(s);
      var j :| 0 <= j < |s| && s[j] == x;
      assert j < i;
      assert s[..i][j] == x;
    }
    forall k, j | 0 <= k < j < |s|
      ensures s[k] != s[j]
    {
      NoRepeats(s, listing, k, j);
    }
    CountDistinct(s, i);
    SubsetCard(group, Names(s[..i]));
  }

  lemma EarlierKeys(listing: set<Str>, number: map<Str, nat>, name: Str, x: Str)
    requires Numbered(number.Keys, number) && name in number && x in Earlier(listing, number, name)
    ensures Less(Key(x), Key(name))
  {
    KeyIsSuffix(x, number[x]);
    KeyIsSuffix(name, number[name]);
    SuffixOrder(number[x], number[name]);
  }

  /** So there is only one: whatever algorithm sorts a listing, and in whatever order the server
      sent it, the result is the same. */
  lemma SortedListingUnique(s: seq<Str>, t: seq<Str>, listing: set<Str>, number: map<Str, nat>)
    requires SortedListing(s, listing) && SortedListing(t, listing) && Numbered(listing, number)
    ensures s == t
  {
    assert |s| == |multiset(s)| == |multiset(t)| == |t|;
    forall i | 0 <= i < |s|
      ensures s[i] == t[i]
    {
      PositionIsRank(s, listing, number, i);
      assert s[i] in multiset(t);
      var j :| 0 <= j < |t| && t[j] == s[i];
      PositionIsRank(t, listing, number, j);
    }
  }

  ghost predicate NoneBefore(s: seq<Str>, x: Str) {
    forall j :: 0 <= j < |s| ==> !Less(Key(s[j]), Key(x))
  }

  function OneMore(names: multiset<Str>, x: Str): multiset<Str> {
    names[x := names[x] + 1]
  }

  lemma SortedCons(x: Str, s: seq<Str>)
    requires Sorted(s) && NoneBefore(s, x)
    ensures Sorted([x] + s) && multiset([x] + s) == OneMore(multiset(s), x)
  {
  }

  lemma SortedAfterFirst(s: seq<Str>, x: Str)
    requires Sorted(s) && (s == [] || !Less(Key(s[0]), Key(x)))
    ensures NoneBefore(s, x)
  {
    forall j | 0 <= j < |s|
      ensures !Less(Key(s[j]), Key(x))
    {
      if j > 0 {
        NotLessTransitive(Key(x), Key(s[0]), Key(s[j]));
      }
    }
  }

  lemma {:induction false} InsertSorted(s: seq<Str>, x: Str) returns (t: seq<Str>)
    requires Sorted(s)
    ensures Sorted(t) && multiset(t) == OneMore(multiset(s), x)
  {
    if s == [] || !Less(Key(s[0]), Key(x)) {
      t := [x] + s;
      SortedAfterFirst(s, x);
      SortedCons(x, s);
    } else {
      var rest := InsertSorted(s[1..], x);
      t := [s[0]] + rest;
      LessAsymmetric(Key(s[0]), Key(x));
      AtLeast(s, x, rest);
      SortedCons(s[0], rest);
      assert s == [s[0]] + s[1..];
    }
  }

  lemma AtLeast(s: seq<Str>, x: Str, rest: seq<Str>)
    requires s != [] && Sorted(s) && !Less(Key(x), Key(s[0]))
    requires multiset(rest) == OneMore(multiset(s[1..]), x)
    ensures NoneBefore(rest, s[0])
  {
    forall j | 0 <= j < |rest|
      ensures !Less(Key(rest[j]), Key(s[0]))
    {
      assert rest[j] in multiset(rest);
      assert rest[j] == x || rest[j] in multiset(s[1..]);
    }
  }

  /** Every listing has a sorted arrangement. */
  lemma {:induction false} SomeSorted(listing: set<Str>) returns (s: seq<Str>)
    ensures SortedListing(s, listing)
    decreases |listing|
  {
    if listing == {} {
      s := [];
    } else {
      var x :| x in listing;
      var rest := SomeSorted(listing - {x});
      s := InsertSorted(rest, x);
    }
  }

  // ---------- the decision ----------

  datatype PredicateResults = PredicateResults(getsTheLock: bool, pathToWatch: Str)

  /** The first position of a name, or -1. */
  function Position(children: seq<Str>, name: Str): (i: int)
    ensures -1 <= i < |children|
    ensures i >= 0 ==> children[i] == name && name !in children[..i]
    ensures i == -1 ==> name !in children
  {
    if children == [] then -1
    else if children[0] == name then 0
    else
      var rest := Position(children[1..], name);
      if rest == -1 then -1 else rest + 1
  }

  function Decision(children: seq<Str>, name: Str, maxLeases: nat): Result<PredicateResults, Error> {
    var i := Position(children, name);
    if i == -1 then Err(NoNode)
    else if i < maxLeases then Ok(PredicateResults(true, []))
    else Ok(PredicateResults(false, children[i - maxLeases]))
  }

  method GetsTheLock(children: seq<Str>, sequenceNodeName: Str, maxLeases: nat)
    returns (r: Result<PredicateResults, Error>)
    ensures r == Decision(children, sequenceNodeName, maxLeases)
    ensures r == Err(NoNode) <==> r.Err?
    ensures r.Err? <==> sequenceNodeName !in children
  {
    for i := 0 to |children|
      invariant sequenceNodeName !in children[..i]
    {
      if children[i] == sequenceNodeName {
        assert Position(children, sequenceNodeName) == i;
        var getsTheLock := i < maxLeases;
        var pathToWatch := [];
        if !getsTheLock {
          pathToWatch := children[i - maxLeases];
        }
        return Ok(PredicateResults(getsTheLock, pathToWatch));
      }
    }
    assert children[..|children|] == children;
    r := Err(NoNode);
  }

  /** On a listing of lock nodes: a listed node gets the lock iff fewer than `maxLeases` nodes are
      earlier; otherwise it watches the earlier node with exactly `maxLeases` - 1 nodes between. */
  lemma DecisionByRank(s: seq<Str>, listing: set<Str>, number: map<Str, nat>, name: Str, maxLeases: nat)
    requires SortedListing(s, listing) && Numbered(listing, number)
    requires name in listing
    ensures var d := Decision(s, name, maxLeases);
            && d.Ok?
            && d.value.getsTheLock == (|Earlier(listing, number, name)| < maxLeases)
            && (!d.value.getsTheLock && maxLeases > 0 ==>
                  var w := d.value.pathToWatch;
                  && w in listing && number[w] < number[name]
                  && |Earlier(listing, number, name)| == |Earlier(listing, number, w)| + maxLeases)
  {
    assert name in multiset(s);
    var i := Position(s, name);
    PositionIsRank(s, listing, number, i);
    if maxLeases <= i {
      PositionIsRank(s, listing, number, i - maxLeases);
    }
  }

  /** Whatever else is listed, a lock node gets the lock only when fewer than `maxLeases` are earlier. */
  lemma GrantedByRank(s: seq<Str>, listing: set<Str>, number: map<Str, nat>, name: Str, maxLeases: nat)
    requires SortedListing(s, listing) && Numbered(number.Keys, number)
    requires name in listing && name in number
    ensures var d := Decision(s, name, maxLeases);
            d.Ok? && (d.value.getsTheLock ==> |Earlier(listing, number, name)| < maxLeases)
  {
    assert name in multiset(s);
    forall x | x in Earlier(listing, number, name)
      ensures Less(Key(x), Key(name))
    {
      EarlierKeys(listing, number, name, x);
    }
    GroupFitsBefore(s, listing, Earlier(listing, number, name), Position(s, name));
  }

  /** The names of a listing that surely sort before a given one, and those that may. */
  ghost function Ahead(listing: set<Str>, name: Str): set<Str> {
    set x | x in listing && Less(Key(x), Key(name))
  }

  ghost function NotBehind(listing: set<Str>, name: Str): set<Str> {
    set x | x in listing && x != name && !Less(Key(name), Key(x))
  }

  lemma PositionWithinNotBehind(s: seq<Str>, listing: set<Str>, i: nat)
    requires SortedListing(s, listing) && i < |s|
    ensures i <= |NotBehind(listing, s[i])|
  {
    forall k, j | 0 <= k < j < |s|
      ensures s[k] != s[j] && s[k] in listing
    {
      NoRepeats(s, listing, k, j);
    }
    forall x | x in Names(s[..i])
      ensures x in NotBehind(listing, s[i])
    {
      var j :| 0 <= j < i && s[j] == x;
    }
    CountDistinct(s, i);
    SubsetCard(Names(s[..i]), NotBehind(listing, s[i]));
  }

  /** Whatever a listing holds: a grant means fewer than `maxLeases` names surely sort before the own one,
      and fewer than `maxLeases` that may sort before it mean a grant. Without ties that is one number. */
  lemma GrantedByKeys(s: seq<Str>, listing: set<Str>, name: Str, maxLeases: nat)
    requires SortedListing(s, listing) && name in listing
    ensures var d := Decision(s, name, maxLeases);
            && d.Ok?
            && (d.value.getsTheLock ==> |Ahead(listing, name)| < maxLeases)
            && (|NotBehind(listing, name)| < maxLeases ==> d.value.getsTheLock)
  {
    assert name in multiset(s);
    var i := Position(s, name);
    GroupFitsBefore(s, listing, Ahead(listing, name), i);
    PositionWithinNotBehind(s, listing, i);
  }

  /** What is watched: another listed name that does not sort after the own one and, with one lease,
      none nearer. */
  lemma WatchedByKey(s: seq<Str>, listing: set<Str>, name: Str, maxLeases: nat)
    requires SortedListing(s, listing) && name in listing && maxLeases > 0
    ensures var d := Decision(s, name, maxLeases);
            d.Ok? && (!d.value.getsTheLock ==>
              var w := d.value.pathToWatch;
              && w in listing && w != name && !Less(Key(name), Key(w))
              && (maxLeases == 1 ==> forall x :: x in listing && Less(Key(x), Key(name)) ==> !Less(Key(w), Key(x))))
  {
    assert name in multiset(s);
    var i := Position(s, name);
    if maxLeases <= i {
      NoRepeats(s, listing, i - maxLeases, i);
      forall x | x in listing && Less(Key(x), Key(name)) && maxLeases == 1
        ensures !Less(Key(s[i - 1]), Key(x))
      {
        assert x in multiset(s);
        var j :| 0 <= j < |s| && s[j] == x;
        LessIrreflexive(Key(name));
        LessIrreflexive(Key(x));
        assert j < i;
      }
    }
  }

  // ---------- the cut name ----------

  lemma KeyWithoutLock(name: Str)
    requires forall i :: 0 <= i < |name| ==> name[i] != LOCK[0]
    ensures Key(name) == name
  {
    forall j: nat | j + |LOCK| <= |name|
      ensures !OccursAt(name, LOCK, j)
    {
      assert name[j..j + |LOCK|][0] != LOCK[0];
    }
  }

  /** The name cut one byte short sorts after every lock node. */
  lemma CutNameIsLast(n: nat, x: Str, m: nat)
    requires LockNode(x, m)
    ensures Less(Key(x), Key(Sliced(true, LockName(n))))
  {
    var cut := LockName(n)[1..];
    forall i | 0 <= i < |cut|
      ensures cut[i] != LOCK[0]
    {
      if i >= 4 {
        PadDigits(n, SUFFIX_WIDTH, i - 4);
        assert cut[i] == Suffix(n)[i - 4];
      } else {
        assert cut[i] == LOCK[i + 1];
      }
    }
    KeyWithoutLock(cut);
    KeyIsSuffix(x, m);
    PadDigits(m, SUFFIX_WIDTH, 0);
    assert cut[0] == LOCK[1];
  }

  lemma OwnAndEarlier(listing: set<Str>, number: map<Str, nat>, name: Str)
    requires name in listing && name in number
    ensures |Earlier(listing, number, name) + {name}| == |Earlier(listing, number, name)| + 1
    ensures Earlier(listing, number, name) + {name} <= listing
  {
  }

  lemma CutNameBehind(s: seq<Str>, listing: set<Str>, number: map<Str, nat>, name: Str, i: nat)
    requires SortedListing(s, listing) && Numbered(number.Keys, number)
    requires name in listing && name in number && name == LockName(number[name])
    requires i < |s| && s[i] == Sliced(true, name)
    ensures |Earlier(listing, number, name)| < i
  {
    var group := Earlier(listing, number, name) + {name};
    OwnAndEarlier(listing, number, name);
    forall x | x in group
      ensures Less(Key(x), Key(s[i]))
    {
      CutNameIsLast(number[name], x, number[x]);
    }
    GroupFitsBefore(s, listing, group, i);
  }

  /** So whoever looks for the cut name gets the lock only with a lease to spare, and never with one. */
  lemma CutNameByRank(s: seq<Str>, listing: set<Str>, number: map<Str, nat>, name: Str, maxLeases: nat)
    requires SortedListing(s, listing) && Numbered(number.Keys, number)
    requires name in listing && name in number && name == LockName(number[name])
    ensures var d := Decision(s, Sliced(true, name), maxLeases);
            d.Ok? && d.value.getsTheLock ==> |Earlier(listing, number, name)| + 1 < maxLeases
  {
    var i := Position(s, Sliced(true, name));
    if i >= 0 {
      CutNameBehind(s, listing, number, name, i);
    }
  }

  lemma SuffixIsKey(n: nat)
    ensures Key(Suffix(n)) == Suffix(n)
  {
    var x := Suffix(n);
    forall i | 0 <= i < |x|
      ensures x[i] != LOCK[0]
    {
      PadDigits(n, SUFFIX_WIDTH, i);
    }
    KeyWithoutLock(x);
  }

  /** Which names have a lock node's key: the lock nodes of that number, and the ten digits alone. */
  lemma KeyedAlike(x: Str, n: nat)
    requires n < SEQUENCE_LIMIT
    ensures Key(x) == Suffix(n) <==> LockNode(x, n) || x == Suffix(n)
  {
    var i := LastIndex(x, LOCK);
    if i >= 0 && Key(x) == Suffix(n) {
      assert x[i..] == x[i..i + |LOCK|] + x[i + |LOCK|..];
    }
    if LockNode(x, n) {
      KeyIsSuffix(x, n);
    }
    SuffixIsKey(n);
  }

  lemma TiedListings(x: Str, a: Str, b: Str)
    requires x != a && a != b && x != b && Key(x) == Key(a) && !Less(Key(b), Key(a))
    ensures SortedListing([x, a, b], {x, a, b}) && SortedListing([a, x, b], {x, a, b})
  {
    LessIrreflexive(Key(a));
    ThreeListed(x, a, b);
    ThreeListed(a, x, b);
    assert {a, x, b} == {x, a, b};
  }

  lemma ThreeListed(x: Str, y: Str, z: Str)
    requires x != y && y != z && x != z
    ensures multiset([x, y, z]) == multiset({x, y, z})
  {
  }

  lemma WatchOfSecond(x: Str, a: Str, b: Str)
    requires x != a
    ensures Decision([x, a, b], a, 1) == Ok(PredicateResults(false, x))
  {
    assert [x, a, b][1..] == [a, b];
    assert Position([x, a, b], a) == 1;
  }

  lemma WatchOfThird(a: Str, x: Str, b: Str)
    requires b != a && b != x
    ensures Decision([a, x, b], b, 1) == Ok(PredicateResults(false, x))
  {
    assert [a, x, b][1..] == [x, b] && [x, b][1..] == [b];
    assert Position([x, b], b) == 1;
    assert Position([a, x, b], b) == 2;
  }

  /** A child named like a suffix alone ties with the lock node of that number. The sort may put either
      first, so that lock node and the next one can both watch the other child. */
  lemma TieSharesWatch(n: nat, m: nat)
    requires n < m < SEQUENCE_LIMIT
    ensures var x, a, b := Suffix(n), LockName(n), LockName(m);
            && SortedListing([x, a, b], {x, a, b}) && SortedListing([a, x, b], {x, a, b})
            && Decision([x, a, b], a, 1) == Decision([a, x, b], b, 1) == Ok(PredicateResults(false, x))
  {
    var x, a, b := Suffix(n), LockName(n), LockName(m);
    SuffixIsKey(n);
    KeyIsSuffix(a, n);
    KeyIsSuffix(b, m);
    SuffixOrder(m, n);
    assert |x| < |a| && |x| < |b|;
    TiedListings(x, a, b);
    WatchOfSecond(x, a, b);
    WatchOfThird(a, x, b);
  }
}
