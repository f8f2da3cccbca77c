/** Node paths: the component-wise meaning of a path, the one-pass validator, and the
    functions that join and split paths. */
module Paths {
  import opened Wrappers
  import opened GoStrings
  import opened Utf8

  // ---------- what a path means ----------

  /** Cut a string at its slashes. */
  function Split(t: Str): (cs: seq<Str>)
    ensures cs != []
  {
    var i := Index(t, SLASH);
    if i == -1 then [t] else [t[..i]] + Split(t[i + 1..])
  }

  /** Write components back, each behind its slash. */
  function Render(cs: seq<Str>): Str {
    if cs == [] then [] else [SLASH] + cs[0] + Render(cs[1..])
  }

  function PathOf(cs: seq<Str>): Str {
    if cs == [] then ROOT else Render(cs)
  }

  function Components(path: Str): seq<Str> {
    if |path| <= 1 then [] else Split(path[1..])
  }

  predicate ValidName(c: Str) {
    c != [] && c != [DOT] && c != [DOT, DOT] && SLASH !in c && Clean(c)
  }

  predicate ValidNames(cs: seq<Str>) {
    forall c :: c in cs ==> ValidName(c)
  }

  /** The rule of the ZooKeeper data model: a slash, then slash-separated valid names. */
  predicate ValidPath(path: Str) {
    path == ROOT || (|path| > 1 && path[0] == SLASH && ValidNames(Split(path[1..])))
  }

  /** The first name of a string and the rest after its slash. */
  lemma SplitFirst(name: Str, rest: Str)
    requires SLASH !in name
    ensures Split(name + [SLASH] + rest) == [name] + Split(rest)
  {
    var t := name + [SLASH] + rest;
    assert t[|name|] == SLASH && forall j :: 0 <= j < |name| ==> t[j] == name[j];
    assert Index(t, SLASH) == |name|;
    assert t[..|name|] == name && t[|name| + 1..] == rest;
  }

  lemma SplitNone(t: Str)
    requires SLASH !in t
    ensures Split(t) == [t]
  {
  }

  lemma CutAtSlash(a: Str) returns (name: Str, rest: Str)
    requires SLASH in a
    ensures SLASH !in name && a == name + [SLASH] + rest
  {
    var i := Index(a, SLASH);
    name, rest := a[..i], a[i + 1..];
  }

  lemma {:induction false} SplitAcrossSlash(a: Str, b: Str)
    ensures Split(a + [SLASH] + b) == Split(a) + Split(b)
    decreases |a|
  {
    if SLASH !in a {
      SplitFirst(a, b);
      SplitNone(a);
    } else {
      var name, rest := CutAtSlash(a);
      calc {
        Split(a + [SLASH] + b);
        { SlashAssociates(name, rest, b); }
        Split(name + [SLASH] + (rest + [SLASH] + b));
        { SplitFirst(name, rest + [SLASH] + b); }
        [name] + Split(rest + [SLASH] + b);
        { SplitAcrossSlash(rest, b); }
        [name] + (Split(rest) + Split(b));
        ([name] + Split(rest)) + Split(b);
        { SplitFirst(name, rest); }
        Split(a) + Split(b);
      }
    }
  }

  lemma SlashAssociates(a: Str, b: Str, c: Str)
    ensures (a + [SLASH] + b) + [SLASH] + c == a + [SLASH] + (b + [SLASH] + c)
  {
  }

  lemma ValidNamesConcat(a: seq<Str>, b: seq<Str>)
    ensures ValidNames(a + b) <==> ValidNames(a) && ValidNames(b)
  {
  }

  lemma {:induction false} RenderAppend(a: seq<Str>, b: seq<Str>)
    ensures Render(a + b) == Render(a) + Render(b)
  {
    if a == [] {
      assert a + b == b;
    } else {
      assert (a + b)[1..] == a[1..] + b;
      RenderAppend(a[1..], b);
    }
  }

  lemma {:induction false} RenderOfSplit(t: Str)
    ensures Render(Split(t)) == [SLASH] + t
    decreases |t|
  {
    if SLASH !in t {
      SplitNone(t);
      assert Render([t]) == [SLASH] + t + Render([]);
    } else {
      var name, rest := CutAtSlash(t);
      calc {
        Render(Split(t));
        { SplitFirst(name, rest); }
        Render([name] + Split(rest));
        { assert ([name] + Split(rest))[1..] == Split(rest); }
        [SLASH] + name + Render(Split(rest));
        { RenderOfSplit(rest); }
        [SLASH] + name + ([SLASH] + rest);
        [SLASH] + t;
      }
    }
  }

  /** Components with slashes between them only. */
  function Inner(cs: seq<Str>): Str
    requires cs != []
  {
    if |cs| == 1 then cs[0] else cs[0] + [SLASH] + Inner(cs[1..])
  }

  lemma {:induction false} RenderIsInner(cs: seq<Str>)
    requires cs != []
    ensures Render(cs) == [SLASH] + Inner(cs)
  {
    if |cs| == 1 {
      assert Render(cs[1..]) == [];
    } else {
      RenderIsInner(cs[1..]);
    }
  }

  lemma InnerCons(name: Str, cs: seq<Str>)
    requires cs != []
    ensures Inner([name] + cs) == name + [SLASH] + Inner(cs)
  {
    assert ([name] + cs)[1..] == cs;
  }

  lemma SplitOfCons(name: Str, cs: seq<Str>)
    requires cs != [] && SLASH !in name && Split(Inner(cs)) == cs
    ensures Split(Inner([name] + cs)) == [name] + cs
  {
    InnerCons(name, cs);
    SplitFirst(name, Inner(cs));
  }

  lemma SplitOfOne(name: Str)
    requires SLASH !in name
    ensures Split(Inner([name])) == [name]
  {
    SplitNone(name);
  }

  lemma {:induction false} SplitOfInner(cs: seq<Str>)
    requires cs != [] && forall i :: 0 <= i < |cs| ==> SLASH !in cs[i]
    ensures Split(Inner(cs)) == cs
  {
    var name, rest := cs[0], cs[1..];
    assert cs == [name] + rest;
    if rest == [] {
      SplitOfOne(name);
    } else {
      SplitOfInner(rest);
      SplitOfCons(name, rest);
    }
  }

  /** Valid paths and lists of valid names are the same thing. */
  lemma PathIsItsComponents(path: Str)
    requires ValidPath(path)
    ensures ValidNames(Components(path)) && PathOf(Components(path)) == path
  {
    if path != ROOT {
      RenderOfSplit(path[1..]);
    }
  }

  lemma ComponentsOfPathOf(cs: seq<Str>)
    requires ValidNames(cs)
    ensures ValidPath(PathOf(cs)) && Components(PathOf(cs)) == cs
  {
    if cs != [] {
      assert forall i :: 0 <= i < |cs| ==> cs[i] in cs;
      RenderIsInner(cs);
      SplitOfInner(cs);
      assert Render(cs)[1..] == Inner(cs) && ValidName(cs[0]);
    }
  }

  /** "At or below" is a relation on components; in the text it means the same string, or the
      parent's text followed by a slash, so `/p/ab` is not below `/p/a`. */
  lemma BelowInText(p: Str, q: Str)
    requires ValidPath(p) && ValidPath(q)
    ensures Components(p) <= Components(q) <==> p == ROOT || p == q || p + ROOT <= q
  {
    var ps, qs := Components(p), Components(q);
    if p == ROOT || p == q {
    } else if ps <= qs {
      BelowHasSlash(p, q);
    } else if p + ROOT <= q {
      SlashIsBelow(p, q);
      assert false;
    }
  }

  lemma BelowHasSlash(p: Str, q: Str)
    requires ValidPath(p) && ValidPath(q) && p != ROOT && p != q && Components(p) <= Components(q)
    ensures p + ROOT <= q
  {
    var ps, qs := Components(p), Components(q);
    var rest := qs[|ps|..];
    assert p == PathOf(ps) && q == PathOf(qs) by {
      PathIsItsComponents(p);
      PathIsItsComponents(q);
    }
    assert qs == ps + rest;
    assert rest == [] ==> qs == ps;
    RenderAppend(ps, rest);
    assert Render(rest)[0] == SLASH;
  }

  lemma SlashIsBelow(p: Str, q: Str)
    requires ValidPath(p) && ValidPath(q) && p != ROOT && p + ROOT <= q
    ensures Components(p) <= Components(q)
  {
    var rest := q[|p| + 1..];
    assert q[1..] == p[1..] + [SLASH] + rest;
    SplitAcrossSlash(p[1..], rest);
  }

  // ---------- the validator ----------

  datatype PathError =
    | EmptyPath
    | MissingLeadingSlash
    | TrailingSlash
    | NullCharacter(at: nat)
    | EmptyNodeName(at: nat)
    | RelativePath(at: nat)
    | InvalidCharacter(at: nat)

  predicate EndsName(path: Str, i: nat) {
    i >= |path| || path[i] == SLASH
  }

  /** What the look-back and look-ahead tests of the scan refuse at byte `i`. */
  predicate RefusedAt(path: Str, i: nat)
    requires 1 <= i < |path|
  {
    if path[i] == SLASH then path[i - 1] == SLASH
    else path[i] == DOT && EndsName(path, i + 1)
         && (path[i - 1] == SLASH || (i >= 2 && path[i - 1] == DOT && path[i - 2] == SLASH))
  }

  predicate NothingRefused(path: Str) {
    forall i :: 1 <= i < |path| ==> !RefusedAt(path, i)
  }

  predicate ScanAccepts(path: Str)
    requires |path| > 1
  {
    path[|path| - 1] != SLASH && NothingRefused(path) && Clean(path[1..])
  }

  lemma ScanOneName(path: Str)
    requires |path| > 1 && path[0] == SLASH && SLASH !in path[1..]
    ensures ScanAccepts(path) <==> ValidName(path[1..])
  {
    var t := path[1..];
    assert forall i :: 1 <= i < |path| ==> path[i] == t[i - 1];
    assert path[|path| - 1] in t;
    if t == [DOT] {
      assert RefusedAt(path, 1);
    } else if t == [DOT, DOT] {
      assert RefusedAt(path, 2);
    } else {
      forall i | 1 <= i < |path|
        ensures !RefusedAt(path, i)
      {
        assert t[i - 1] in t;
        assert i + 1 < |path| ==> t[i] in t;
        assert i >= 2 ==> t[i - 2] in t;
        assert i >= 3 ==> t[i - 3] in t;
      }
    }
  }

  lemma RefusedInHead(path: Str, k: nat, i: nat)
    requires 0 < i <= k && k + 1 < |path| && path[k + 1] == SLASH && SLASH !in path[1..k + 1]
    ensures RefusedAt(path, i) <==> RefusedAt(path[..k + 1], i)
  {
  }

  lemma RefusedInTail(path: Str, k: nat, i: nat)
    requires k + 1 < i < |path| && path[k + 1] == SLASH
    ensures RefusedAt(path, i) <==> RefusedAt(path[k + 1..], i - (k + 1))
  {
  }

  lemma RefusalPeel(path: Str, k: nat)
    requires 0 < k && k + 1 < |path| && path[k + 1] == SLASH && SLASH !in path[1..k + 1]
    ensures NothingRefused(path) <==> NothingRefused(path[..k + 1]) && NothingRefused(path[k + 1..])
  {
    var head, tail := path[..k + 1], path[k + 1..];
    assert !RefusedAt(path, k + 1) by {
      assert path[k] in path[1..k + 1];
    }
    forall i | 1 <= i <= k
      ensures RefusedAt(path, i) <==> RefusedAt(head, i)
    {
      RefusedInHead(path, k, i);
    }
    forall i | k + 1 < i < |path|
      ensures RefusedAt(path, i) <==> RefusedAt(tail, i - (k + 1))
    {
      RefusedInTail(path, k, i);
    }
    forall j | 1 <= j < |tail|
      ensures RefusedAt(tail, j) <==> RefusedAt(path, j + (k + 1))
    {
      RefusedInTail(path, k, j + (k + 1));
    }
  }

  /** The scan of a longer path is the scan of its first name and of what follows it. */
  lemma ScanPeel(path: Str, k: nat)
    requires |path| > 1 && path[0] == SLASH
    requires 0 < k && k + 2 < |path| && path[k + 1] == SLASH && SLASH !in path[1..k + 1]
    ensures ScanAccepts(path) <==> ScanAccepts(path[..k + 1]) && ScanAccepts(path[k + 1..])
  {
    var head, tail := path[..k + 1], path[k + 1..];
    RefusalPeel(path, k);
    assert Clean(path[1..]) <==> Clean(head[1..]) && Clean(tail[1..]) by {
      assert path[1..] == head[1..] + [SLASH] + tail[1..];
      CleanAcrossSlash(head[1..], tail[1..]);
    }
    assert head[|head| - 1] in path[1..k + 1];
  }

  lemma ValidPeel(name: Str, rest: Str)
    requires SLASH !in name
    ensures ValidNames(Split(name + [SLASH] + rest)) <==> ValidName(name) && ValidNames(Split(rest))
  {
    SplitFirst(name, rest);
    ValidNamesConcat([name], Split(rest));
    assert ValidNames([name]) <==> ValidName(name);
  }

  lemma {:induction false} ScanMeansValid(path: Str)
    requires |path| > 1 && path[0] == SLASH
    ensures ScanAccepts(path) <==> ValidPath(path)
    decreases |path|
  {
    if SLASH !in path[1..] {
      ScanOneName(path);
      SplitNone(path[1..]);
      assert ValidNames([path[1..]]) <==> ValidName(path[1..]);
    } else {
      var name, rest := CutAtSlash(path[1..]);
      assert path == [SLASH] + name + [SLASH] + rest;
      ValidPeel(name, rest);
      if name == [] {
        assert RefusedAt(path, 1);
      } else if rest == [] {
        assert path[|path| - 1] == SLASH;
        assert Split(rest)[0] == [] && !ValidName([]);
      } else {
        assert ([SLASH] + rest)[1..] == rest;
        ScanMeansValid([SLASH] + rest);
        ScanCut(path, name, rest);
      }
    }
  }

  lemma ScanCut(path: Str, name: Str, rest: Str)
    requires SLASH !in name && name != [] && rest != []
    requires path == [SLASH] + name + [SLASH] + rest
    ensures ScanAccepts(path) <==> ValidName(name) && ScanAccepts([SLASH] + rest)
  {
    var k := |name|;
    assert path[1..k + 1] == name && path[k + 1..] == [SLASH] + rest;
    ScanPeel(path, k);
    assert path[..k + 1][1..] == name;
    ScanOneName(path[..k + 1]);
  }

  /** The reason given is true of the path. */
  predicate Explains(e: PathError, path: Str) {
    match e
    case EmptyPath => path == []
    case MissingLeadingSlash => path != [] && path[0] != SLASH
    case TrailingSlash => |path| > 1 && path[|path| - 1] == SLASH
    case NullCharacter(i) => 1 <= i < |path| && path[i] == 0
    case EmptyNodeName(i) => 1 <= i < |path| && path[i] == SLASH && RefusedAt(path, i)
    case RelativePath(i) => 1 <= i < |path| && path[i] == DOT && RefusedAt(path, i)
    case InvalidCharacter(i) => 1 <= i < |path| && Forbidden(DecodeRune(path[i..]).rune)
  }

  /** One pass over the runes accepts exactly the valid paths, and gives a true reason otherwise. */
  method ValidatePath(path: Str) returns (err: Option<PathError>)
    ensures err == None <==> ValidPath(path)
    ensures err.Some? ==> Explains(err.value, path)
  {
    if |path| == 0 {
      return Some(EmptyPath);
    }
    if !(ROOT <= path) {
      return Some(MissingLeadingSlash);
    }
    if |path| == 1 {
      return None;
    }
    ScanMeansValid(path);
    if HasSuffix(path, ROOT) {
      return Some(TrailingSlash);
    }
    err := ScanRunes(path);
  }

  /** The validator where only its verdict is used. */
  method Accepts(path: Str) returns (ok: bool)
    ensures ok == ValidPath(path)
  {
    var err := ValidatePath(path);
    ok := err == None;
  }

  /** The loop of the validator: `lastc` is the rune before byte `i`. */
  method ScanRunes(path: Str) returns (err: Option<PathError>)
    requires |path| > 1 && path[0] == SLASH && path[|path| - 1] != SLASH
    ensures err == None <==> ScanAccepts(path)
    ensures err.Some? ==> Explains(err.value, path)
  {
    var lastc: int := SLASH;
    var i := 1;
    while i < |path|
      invariant 1 <= i <= |path| && Remembers(lastc, path[i - 1])
      invariant forall j :: 1 <= j < i ==> !RefusedAt(path, j)
      invariant Clean(path[1..]) <==> Clean(path[i..])
    {
      err, lastc, i := ScanRune(path, i, lastc);
      if err.Some? {
        return;
      }
    }
    err := None;
  }

  /** One round: the tests on the rune at `i`, and where the next one begins. */
  method ScanRune(path: Str, i: nat, lastc: int) returns (err: Option<PathError>, c: int, next: nat)
    requires 1 <= i < |path| && path[0] == SLASH && Remembers(lastc, path[i - 1])
    ensures err.Some? ==> Explains(err.value, path) && (!Clean(path[i..]) || RefusedAt(path, i))
    ensures err == None ==> Passed(path, i, c, next)
  {
    c, next := RuneAt(path, i);
    err := CheckRune(path, i, c, lastc);
  }

  /** The rune `c` at `i` ends before `next` and nothing in it is refused. */
  ghost predicate Passed(path: Str, i: nat, c: int, next: nat)
    requires 1 <= i
  {
    && i < next <= |path| && Remembers(c, path[next - 1])
    && (forall j :: i <= j < next ==> !RefusedAt(path, j))
    && (Clean(path[i..]) <==> Clean(path[next..]))
  }

  /** The two runes the tests look back for are single bytes. */
  predicate Remembers(lastc: int, b: Byte) {
    (lastc == SLASH <==> b == SLASH) && (lastc == DOT <==> b == DOT)
  }

  /** One round of the range over the string: the rune at `i`, and where the next one begins. */
  method RuneAt(path: Str, i: nat) returns (c: int, next: nat)
    requires 1 <= i < |path|
    ensures i < next <= |path| && DecodeRune(path[i..]) == Decoded(c, next - i)
    ensures Clean(path[i..]) <==> !Forbidden(c) && Clean(path[next..])
    ensures Remembers(c, path[i]) && Remembers(c, path[next - 1])
    ensures forall j :: i < j < next ==> !RefusedAt(path, j)
  {
    var d := DecodeRune(path[i..]);
    c, next := d.rune, i + d.width;
    assert path[i..][d.width..] == path[next..];
    assert forall j :: 0 <= j < d.width ==> path[i..][j] == path[i + j];
    assert forall j :: i < j < next ==> path[j] >= 0x80;
  }

  /** The chain of tests on one rune; no test indexes outside the string. */
  method CheckRune(path: Str, i: nat, c: int, lastc: int) returns (err: Option<PathError>)
    requires 1 <= i < |path| && path[0] == SLASH && Remembers(lastc, path[i - 1])
    requires c == DecodeRune(path[i..]).rune && Remembers(c, path[i])
    ensures err == None <==> !Forbidden(c) && !RefusedAt(path, i)
    ensures err.Some? ==> Explains(err.value, path)
  {
    if c == 0 {
      return Some(NullCharacter(i));
    } else if c == SLASH && lastc == SLASH {
      return Some(EmptyNodeName(i));
    } else if c == DOT && lastc == DOT {
      if path[i - 2] == SLASH && (i + 1 == |path| || path[i + 1] == SLASH) {
        return Some(RelativePath(i));
      }
    } else if c == DOT {
      if path[i - 1] == SLASH && (i + 1 == |path| || path[i + 1] == SLASH) {
        return Some(RelativePath(i));
      }
    } else if Forbidden(c) {
      return Some(InvalidCharacter(i));
    }
    err := None;
  }

  // ---------- joining ----------

  predicate Trivial(child: Str) {
    child == [] || child == ROOT
  }

  /** A child with one leading and then one trailing slash removed. */
  function Stripped(child: Str): Str {
    var s := if ROOT <= child then child[1..] else child;
    if HasSuffix(s, ROOT) then s[..|s| - 1] else s
  }

  /** The text a parent contributes: led by a slash, never ended by one. */
  function JoinParent(parent: Str): Str {
    if parent == [] then []
    else
      (if ROOT <= parent then [] else ROOT)
      + (if HasSuffix(parent, ROOT) then parent[..|parent| - 1] else parent)
  }

  function JoinChild(path: Str, child: Str): Str {
    if Trivial(child) then (if path == [] then ROOT else path)
    else path + ROOT + Stripped(child)
  }

  function JoinChildren(path: Str, children: seq<Str>): Str
    decreases |children|
  {
    if children == [] then path else JoinChildren(JoinChild(path, children[0]), children[1..])
  }

  function Join(parent: Str, children: seq<Str>): Str {
    JoinChildren(JoinParent(parent), children)
  }

  method JoinPath(parent: Str, children: seq<Str>) returns (path: Str)
    ensures path == Join(parent, children)
  {
    path := [];
    if |parent| > 0 {
      if !(ROOT <= parent) {
        path := path + ROOT;
      }
      if HasSuffix(parent, ROOT) {
        path := path + parent[..|parent| - 1];
      } else {
        path := path + parent;
      }
    }
    assert path == JoinParent(parent) && children[0..] == children;
    for i := 0 to |children|
      invariant JoinChildren(path, children[i..]) == Join(parent, children)
    {
      assert children[i..][1..] == children[i + 1..];
      path := AppendChild(path, children[i]);
    }
  }

  /** One round of the loop over the children. */
  method AppendChild(path: Str, child: Str) returns (longer: Str)
    ensures longer == JoinChild(path, child)
  {
    longer := path;
    if |child| == 0 || child == ROOT {
      if |path| == 0 {
        longer := longer + ROOT;
      }
    } else {
      longer := longer + ROOT;
      var rest := child;
      if ROOT <= rest {
        rest := rest[1..];
      }
      if HasSuffix(rest, ROOT) {
        rest := rest[..|rest| - 1];
      }
      longer := longer + rest;
    }
  }

  /** What a child adds to the components of a joined path. */
  function ChildComponents(child: Str): seq<Str> {
    if Trivial(child) then [] else Split(Stripped(child))
  }

  function AllComponents(children: seq<Str>): seq<Str> {
    if children == [] then [] else ChildComponents(children[0]) + AllComponents(children[1..])
  }

  predicate Acceptable(child: Str) {
    ValidNames(ChildComponents(child))
  }

  predicate AllAcceptable(children: seq<Str>) {
    forall i :: 0 <= i < |children| ==> Acceptable(children[i])
  }

  lemma JoinOneChild(path: Str, child: Str)
    ensures JoinChildren(path, [child]) == JoinChild(path, child)
  {
  }

  lemma JoinChildComponents(path: Str, child: Str)
    requires |path| > 1 && path[0] == SLASH
    ensures var r := JoinChild(path, child);
            && |r| > 1 && r[0] == SLASH
            && Components(r) == Components(path) + ChildComponents(child)
            && (ValidPath(r) <==> ValidPath(path) && Acceptable(child))
  {
    if !Trivial(child) {
      var t := Stripped(child);
      assert JoinChild(path, child)[1..] == path[1..] + [SLASH] + t;
      SplitAcrossSlash(path[1..], t);
      ValidNamesConcat(Split(path[1..]), Split(t));
    }
  }

  lemma {:induction false} JoinChildrenComponents(path: Str, children: seq<Str>)
    requires |path| > 1 && path[0] == SLASH
    ensures Components(JoinChildren(path, children)) == Components(path) + AllComponents(children)
    decreases |children|
  {
    if children == [] {
      assert JoinChildren(path, children) == path;
      assert Components(path) + [] == Components(path);
    } else {
      var r := JoinChild(path, children[0]);
      assert |r| > 1 && r[0] == SLASH && Components(r) == Components(path) + ChildComponents(children[0]) by {
        JoinChildComponents(path, children[0]);
      }
      JoinChildrenComponents(r, children[1..]);
      assert JoinChildren(path, children) == JoinChildren(r, children[1..]);
      Associative(Components(path), ChildComponents(children[0]), AllComponents(children[1..]));
    }
  }

  lemma {:induction false} JoinChildrenValid(path: Str, children: seq<Str>)
    requires |path| > 1 && path[0] == SLASH
    ensures ValidPath(JoinChildren(path, children)) <==> ValidPath(path) && AllAcceptable(children)
    decreases |children|
  {
    if children != [] {
      var r := JoinChild(path, children[0]);
      assert |r| > 1 && r[0] == SLASH && (ValidPath(r) <==> ValidPath(path) && Acceptable(children[0])) by {
        JoinChildComponents(path, children[0]);
      }
      JoinChildrenValid(r, children[1..]);
      AllAcceptableCons(children);
    }
  }

  lemma AllAcceptableCons(children: seq<Str>)
    requires children != []
    ensures AllAcceptable(children) <==> Acceptable(children[0]) && AllAcceptable(children[1..])
  {
  }

  lemma JoinParentOfValid(parent: Str)
    requires ValidPath(parent)
    ensures JoinParent(parent) == if parent == ROOT then [] else parent
  {
    if parent != ROOT {
      ScanMeansValid(parent);
    }
  }

  /** For a valid parent other than the root, the joined path is valid iff every child is empty,
      a lone slash, or slash-separated valid names; its components are then all the components
      in order. */
  lemma JoinIsConcatenation(parent: Str, children: seq<Str>)
    requires ValidPath(parent) && parent != ROOT
    ensures Components(Join(parent, children)) == Components(parent) + AllComponents(children)
    ensures ValidPath(Join(parent, children)) <==> AllAcceptable(children)
  {
    JoinParentOfValid(parent);
    JoinChildrenComponents(parent, children);
    JoinChildrenValid(parent, children);
  }

  /** A path with or without its leading slash, and with or without one at its end. */
  function Spellings(path: Str): set<Str>
    requires path != []
  {
    {path, path[1..], path + ROOT, path[1..] + ROOT}
  }

  /** A valid path other than the root is a slash and a text without slashes at its ends. */
  lemma BetweenSlashes(path: Str)
    requires ValidPath(path) && path != ROOT
    ensures var t := path[1..];
            path == ROOT + t && t != [] && t[0] != SLASH && t[|t| - 1] != SLASH
  {
    ScanMeansValid(path);
    assert !RefusedAt(path, 1);
  }

  lemma SpelledParent(parent: Str, a: Str)
    requires ValidPath(parent) && parent != ROOT && a in Spellings(parent)
    ensures JoinParent(a) == parent
  {
    BetweenSlashes(parent);
    ParentSpelling(parent[1..], a);
  }

  lemma ParentSpelling(t: Str, a: Str)
    requires t != [] && t[0] != SLASH && t[|t| - 1] != SLASH && a in {ROOT + t, t, ROOT + t + ROOT, t + ROOT}
    ensures JoinParent(a) == ROOT + t
  {
    if a == ROOT + t || a == t {
      assert a[|a| - 1] == t[|t| - 1];
    } else {
      assert HasSuffix(a, ROOT) && a[..|a| - 1] == if a == t + ROOT then t else ROOT + t;
    }
  }

  lemma SpelledChild(path: Str, child: Str, b: Str)
    requires ValidPath(child) && child != ROOT && b in Spellings(child)
    ensures JoinChild(path, b) == path + child
  {
    var t := child[1..];
    BetweenSlashes(child);
    StrippedSpelling(t, b);
    Associative(path, ROOT, t);
  }

  lemma StrippedSpelling(t: Str, b: Str)
    requires t != [] && t[0] != SLASH && t[|t| - 1] != SLASH && b in {ROOT + t, t, ROOT + t + ROOT, t + ROOT}
    ensures !Trivial(b) && Stripped(b) == t
  {
    assert (ROOT + t)[1..] == t && (ROOT + t + ROOT)[1..] == t + ROOT && (t + ROOT)[..|t|] == t;
    assert b[0] == t[0] || b[1] == t[0];
  }

  /** Slashes at either end of a parent or a child make no difference: the text of one is put after the text
      of the other. */
  lemma JoinIgnoresOuterSlashes(parent: Str, child: Str, a: Str, b: Str)
    requires ValidPath(parent) && parent != ROOT && ValidPath(child) && child != ROOT
    requires a in Spellings(parent) && b in Spellings(child)
    ensures Join(a, [b]) == parent + child
  {
    SpelledParent(parent, a);
    SpelledChild(parent, child, b);
    JoinOneChild(parent, b);
  }

  /** A valid path is an acceptable child and contributes its own components. */
  lemma ValidChild(child: Str)
    requires ValidPath(child)
    ensures Acceptable(child) && ChildComponents(child) == Components(child)
  {
    if child != ROOT {
      ScanMeansValid(child);
      assert child[1..][|child| - 2] == child[|child| - 1];
    }
  }

  lemma DoubleSlashIsInvalid(t: Str, children: seq<Str>)
    ensures !ValidPath(JoinChildren(ROOT + ROOT + t, children))
  {
    var path := ROOT + ROOT + t;
    assert !ValidPath(path) by {
      assert path[1..] == [] + [SLASH] + t;
      SplitFirst([], t);
      assert Split(path[1..])[0] == [] && !ValidName([]);
    }
    JoinChildrenValid(path, children);
  }

  lemma {:induction false} JoinAfterLoneSlash(children: seq<Str>)
    ensures ValidPath(JoinChildren(ROOT, children)) <==> forall i :: 0 <= i < |children| ==> Trivial(children[i])
    ensures ValidPath(JoinChildren(ROOT, children)) ==> JoinChildren(ROOT, children) == ROOT
  {
    if children == [] {
      assert JoinChildren(ROOT, children) == ROOT;
    } else {
      var first, rest := children[0], children[1..];
      if Trivial(first) {
        JoinAfterLoneSlash(rest);
        assert forall i :: 0 <= i < |rest| ==> rest[i] == children[i + 1];
        assert forall i :: 0 < i < |children| ==> children[i] == rest[i - 1];
      } else {
        DoubleSlashIsInvalid(Stripped(first), rest);
      }
    }
  }

  /** From the root the answer differs: no child at all gives the empty string, and a first child
      that trims to nothing leaves a lone slash, which any later name turns into an empty name. */
  lemma JoinFromRoot(children: seq<Str>)
    ensures ValidPath(Join(ROOT, children)) <==>
            && children != []
            && if Stripped(children[0]) == [] then forall i :: 1 <= i < |children| ==> Trivial(children[i])
               else AllAcceptable(children)
    ensures children != [] && Stripped(children[0]) != [] ==> Components(Join(ROOT, children)) == AllComponents(children)
    ensures ValidPath(Join(ROOT, children)) && Stripped(children[0]) == [] ==> Join(ROOT, children) == ROOT
  {
    assert JoinParent(ROOT) == [];
    if children != [] {
      if Stripped(children[0]) == [] {
        JoinFromNothing(children);
      } else {
        JoinFromName(children);
      }
    }
  }

  lemma JoinFromNothing(children: seq<Str>)
    requires children != [] && Stripped(children[0]) == []
    ensures ValidPath(JoinChildren([], children)) <==> forall i :: 1 <= i < |children| ==> Trivial(children[i])
    ensures ValidPath(JoinChildren([], children)) ==> JoinChildren([], children) == ROOT
  {
    var rest := children[1..];
    assert JoinChild([], children[0]) == ROOT;
    JoinAfterLoneSlash(rest);
    assert forall i :: 0 <= i < |rest| ==> rest[i] == children[i + 1];
    assert forall i :: 0 < i < |children| ==> children[i] == rest[i - 1];
  }

  lemma JoinFromName(children: seq<Str>)
    requires children != [] && Stripped(children[0]) != []
    ensures ValidPath(JoinChildren([], children)) <==> AllAcceptable(children)
    ensures Components(JoinChildren([], children)) == AllComponents(children)
  {
    var first, rest := children[0], children[1..];
    var path := ROOT + Stripped(first);
    assert JoinChild([], first) == path && path[1..] == Stripped(first);
    JoinChildrenValid(path, rest);
    JoinChildrenComponents(path, rest);
    AllAcceptableCons(children);
  }

  // ---------- splitting ----------

  datatype PathAndNode = PathAndNode(path: Str, node: Str)

  function GetNodeFromPath(path: Str): Str {
    var i := LastIndex(path, ROOT);
    if i < 0 then path
    else if i + 1 >= |path| then []
    else path[i + 1..]
  }

  function SplitPath(path: Str): PathAndNode {
    var i := LastIndex(path, ROOT);
    if i < 0 then PathAndNode(path, [])
    else if i > 0 then PathAndNode(path[..i], path[i + 1..])
    else PathAndNode(ROOT, path[i + 1..])
  }

  lemma LastSlash(front: Str, name: Str)
    requires SLASH !in name
    ensures LastIndex(front + ROOT + name, ROOT) == |front|
  {
    var s := front + ROOT + name;
    var i := LastIndex(s, ROOT);
    assert OccursAt(s, ROOT, |front|);
    forall j: nat | j > |front|
      ensures !OccursAt(s, ROOT, j)
    {
      assert j < |s| ==> s[j..j + 1][0] == name[j - |front| - 1];
    }
  }

  /** On any text, valid or not: both functions cut at the last slash, and without one the split keeps the
      text as a path and the node name is all of it. */
  lemma SplitsAtLastSlash(front: Str, name: Str)
    requires SLASH !in name
    ensures SplitPath(name) == PathAndNode(name, []) && GetNodeFromPath(name) == name
    ensures SplitPath(front + ROOT + name) == PathAndNode(if front == [] then ROOT else front, name)
    ensures GetNodeFromPath(front + ROOT + name) == name
  {
    var s := front + ROOT + name;
    LastSlash(front, name);
    assert s[..|front|] == front && s[|front| + 1..] == name;
    forall j: nat
      ensures !OccursAt(name, ROOT, j)
    {
      assert j < |name| ==> name[j..j + 1][0] == name[j];
    }
  }

  lemma RenderSnoc(cs: seq<Str>, name: Str)
    ensures Render(cs + [name]) == Render(cs) + ROOT + name
  {
    RenderAppend(cs, [name]);
    assert Render([name]) == ROOT + name + Render([]);
  }

  /** The text of a valid parent and a name: a slash between them, only one under the root. */
  function Below(parent: Str, name: Str): Str {
    (if parent == ROOT then [] else parent) + ROOT + name
  }

  lemma JoinText(parent: Str, name: Str)
    requires ValidPath(parent) && name != [] && SLASH !in name
    ensures Join(parent, [name]) == Below(parent, name)
  {
    JoinParentOfValid(parent);
    NameIsUnstripped(name);
    JoinOneChild(JoinParent(parent), name);
  }

  lemma BelowComponents(parent: Str, name: Str)
    requires ValidPath(parent) && ValidName(name)
    ensures ValidPath(Below(parent, name)) && Components(Below(parent, name)) == Components(parent) + [name]
  {
    var cs := Components(parent);
    assert ValidNames(cs) && Below(parent, name) == Render(cs) + ROOT + name by {
      PathIsItsComponents(parent);
    }
    assert Below(parent, name) == PathOf(cs + [name]) by {
      RenderSnoc(cs, name);
    }
    ComponentsOfPathOf(cs + [name]);
  }

  lemma BelowSplits(parent: Str, name: Str)
    requires ValidPath(parent) && name != [] && SLASH !in name
    ensures SplitPath(Below(parent, name)) == PathAndNode(parent, name) && GetNodeFromPath(Below(parent, name)) == name
  {
    var front, path := if parent == ROOT then [] else parent, Below(parent, name);
    LastSlash(front, name);
    assert path[..|front|] == front && path[|front| + 1..] == name;
  }

  /** A name joined to any valid parent, the root included, is the parent's next component, and
      splitting gives both parts back. */
  lemma JoinThenSplit(parent: Str, name: Str)
    requires ValidPath(parent) && ValidName(name)
    ensures var path := Join(parent, [name]);
            && ValidPath(path)
            && Components(path) == Components(parent) + [name]
            && SplitPath(path) == PathAndNode(parent, name)
            && GetNodeFromPath(path) == name
  {
    JoinText(parent, name);
    BelowComponents(parent, name);
    BelowSplits(parent, name);
  }

  lemma NameIsUnstripped(name: Str)
    requires name != [] && SLASH !in name
    ensures !Trivial(name) && Stripped(name) == name
  {
    assert name[0] in name && name[|name| - 1] in name;
  }

  lemma SplitThenJoin(path: Str)
    requires ValidPath(path) && path != ROOT
    ensures var s := SplitPath(path);
            && ValidPath(s.path) && ValidName(s.node)
            && Components(path) == Components(s.path) + [s.node]
            && Join(s.path, [s.node]) == path
            && GetNodeFromPath(path) == s.node
  {
    var cs := Components(path);
    var front, name := cs[..|cs| - 1], cs[|cs| - 1];
    assert ValidNames(cs) && path == Render(front + [name]) by {
      PathIsItsComponents(path);
      assert cs == front + [name];
    }
    assert ValidName(name);
    var parent := PathOf(front);
    ComponentsOfPathOf(front);
    assert path == Below(parent, name) by {
      RenderSnoc(front, name);
    }
    JoinText(parent, name);
    BelowComponents(parent, name);
    BelowSplits(parent, name);
  }
}
