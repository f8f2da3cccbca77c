/** Go strings are byte sequences. This module defines the few operations of Go's
    `strings` package that the library uses, each with the contract its callers rely on. */
module GoStrings {
  type Byte = b: int | 0 <= b < 0x100

  type Str = seq<Byte>

  const SLASH: Byte := 0x2F
  const DOT: Byte := 0x2E
  const ROOT: Str := [SLASH]

  predicate HasSuffix(s: Str, suffix: Str) {
    |suffix| <= |s| && s[|s| - |suffix|..] == suffix
  }

  predicate OccursAt(s: Str, sub: Str, i: nat) {
    i + |sub| <= |s| && s[i..i + |sub|] == sub
  }

  /** `strings.LastIndex`: the greatest position at which `sub` occurs, or -1. */
  function LastIndex(s: Str, sub: Str): (i: int)
    ensures -1 <= i
    ensures i >= 0 ==> OccursAt(s, sub, i)
    ensures forall j: nat :: OccursAt(s, sub, j) ==> j <= i
  {
    LastIndexUpTo(s, sub, |s|)
  }

  function LastIndexUpTo(s: Str, sub: Str, k: nat): (i: int)
    ensures -1 <= i <= k
    ensures i >= 0 ==> OccursAt(s, sub, i)
    ensures forall j: nat :: OccursAt(s, sub, j) && j <= k ==> j <= i
  {
    if OccursAt(s, sub, k) then k else if k == 0 then -1 else LastIndexUpTo(s, sub, k - 1)
  }

  /** `strings.Index` for a one-byte needle: the least position of `b`, or -1. */
  function Index(s: Str, b: Byte): (i: int)
    ensures -1 <= i < |s|
    ensures i >= 0 ==> s[i] == b
    ensures forall j :: 0 <= j < |s| && s[j] == b ==> 0 <= i <= j
  {
    IndexFrom(s, b, 0)
  }

  function IndexFrom(s: Str, b: Byte, k: nat): (i: int)
    requires k <= |s|
    ensures i == -1 || k <= i < |s|
    ensures i >= 0 ==> s[i] == b
    ensures forall j :: k <= j < |s| && s[j] == b ==> 0 <= i <= j
    decreases |s| - k
  {
    if k == |s| then -1 else if s[k] == b then k else IndexFrom(s, b, k + 1)
  }

  /** Go's `<` on strings: bytewise lexicographic order. */
  predicate Less(a: Str, b: Str) {
    if b == [] then false
    else if a == [] then true
    else if a[0] != b[0] then a[0] < b[0]
    else Less(a[1..], b[1..])
  }

  /** Strings of one length compare by their initial parts first and their last bytes second. */
  lemma {:induction false} LessSnoc(a: Str, b: Str, x: Byte, y: Byte)
    requires |a| == |b|
    ensures Less(a + [x], b + [y]) <==> Less(a, b) || (a == b && x < y)
  {
    if a != [] {
      assert (a + [x])[1..] == a[1..] + [x] && (b + [y])[1..] == b[1..] + [y];
      assert a == [a[0]] + a[1..] && b == [b[0]] + b[1..];
      LessSnoc(a[1..], b[1..], x, y);
    }
  }
}
