/** The namespace a client prepends to every path it sends and strips from every path it reports. */
module Namespace {
  import opened Wrappers
  import opened GoStrings
  import opened Paths

  /** A namespace in use is empty or, behind a slash, a valid path. */
  predicate Kept(namespace: Str) {
    namespace == [] || ValidPath(ROOT + namespace)
  }

  /** An invalid namespace is reported and replaced by the empty one. */
  method NewNamespace(namespace: Str) returns (kept: Str)
    ensures Kept(kept)
    ensures kept == if Kept(namespace) then namespace else []
  {
    kept := namespace;
    if |namespace| > 0 {
      var valid := Accepts(ROOT + namespace);
      if !valid {
        kept := [];
      }
    }
  }

  function FixForNamespace(namespace: Str, path: Str): Str {
    if |namespace| > 0 then Join(namespace, [path]) else path
  }

  function UnfixForNamespace(namespace: Str, path: Str): Str {
    if |namespace| > 0 && |path| > 0 then
      var prefix := Join(namespace, []);
      if prefix <= path then (if |prefix| < |path| then path[|prefix|..] else ROOT) else path
    else path
  }

  /** In the text, a kept namespace is a slash and its name. */
  lemma PrefixText(namespace: Str)
    requires Kept(namespace) && namespace != []
    ensures JoinParent(namespace) == Join(namespace, []) == ROOT + namespace
  {
    var p := ROOT + namespace;
    ScanMeansValid(p);
    assert !RefusedAt(p, 1);
    assert p[1] == namespace[0] && p[|p| - 1] == namespace[|namespace| - 1];
  }

  lemma FixedText(namespace: Str, path: Str)
    requires Kept(namespace) && namespace != [] && ValidPath(path)
    ensures FixForNamespace(namespace, path) == ROOT + namespace + if path == ROOT then [] else path
  {
    PrefixText(namespace);
    JoinOneChild(ROOT + namespace, path);
    if path != ROOT {
      assert !Trivial(path) && ROOT + Stripped(path) == path by {
        StrippedValid(path);
      }
      assert ROOT + namespace + ROOT + Stripped(path) == ROOT + namespace + (ROOT + Stripped(path));
    }
  }

  lemma StrippedValid(path: Str)
    requires ValidPath(path) && path != ROOT
    ensures !Trivial(path) && Stripped(path) == path[1..] && ROOT + path[1..] == path
  {
    ScanMeansValid(path);
    assert path[1..][|path| - 2] == path[|path| - 1];
  }

  /** Fixing places every valid path at or under the namespace and unfixing takes it back, for
      every namespace a client can have. */
  lemma NamespaceRoundTrip(namespace: Str, path: Str)
    requires Kept(namespace) && ValidPath(path)
    ensures var fixed := FixForNamespace(namespace, path);
            && ValidPath(fixed)
            && Components(fixed) == (if namespace == [] then [] else Components(ROOT + namespace)) + Components(path)
            && UnfixForNamespace(namespace, fixed) == path
  {
    if namespace == [] {
      assert [] + Components(path) == Components(path);
    } else if path == ROOT {
      RootRoundTrip(namespace);
    } else {
      FixedText(namespace, path);
      PrefixedComponents(namespace, path);
      UnfixPrefixed(namespace, path);
    }
  }

  lemma RootRoundTrip(namespace: Str)
    requires Kept(namespace) && namespace != []
    ensures FixForNamespace(namespace, ROOT) == ROOT + namespace && UnfixForNamespace(namespace, ROOT + namespace) == ROOT
    ensures Components(ROOT + namespace) == Components(ROOT + namespace) + Components(ROOT)
  {
    FixedText(namespace, ROOT);
    assert ROOT + namespace + [] == ROOT + namespace;
    PrefixText(namespace);
  }

  lemma PrefixedComponents(namespace: Str, path: Str)
    requires Kept(namespace) && namespace != [] && ValidPath(path) && path != ROOT
    ensures ValidPath(ROOT + namespace + path)
    ensures Components(ROOT + namespace + path) == Components(ROOT + namespace) + Components(path)
  {
    assert (ROOT + namespace + path)[1..] == namespace + [SLASH] + path[1..];
    assert (ROOT + namespace)[1..] == namespace;
    SplitAcrossSlash(namespace, path[1..]);
    ValidNamesConcat(Split(namespace), Split(path[1..]));
  }

  lemma FixIsInjective(namespace: Str, p: Str, q: Str)
    requires Kept(namespace) && ValidPath(p) && ValidPath(q)
    requires FixForNamespace(namespace, p) == FixForNamespace(namespace, q)
    ensures p == q
  {
    NamespaceRoundTrip(namespace, p);
    NamespaceRoundTrip(namespace, q);
  }

  /** Unfixing tests a text prefix, not a path prefix: `/app` also matches `/apple`. The two
      functions undo each other on exactly the paths at or under the namespace. */
  lemma UnfixThenFix(namespace: Str, path: Str)
    requires Kept(namespace) && namespace != [] && ValidPath(path)
    ensures FixForNamespace(namespace, UnfixForNamespace(namespace, path)) == path
            <==> Components(ROOT + namespace) <= Components(path)
  {
    var prefix := ROOT + namespace;
    BelowInText(prefix, path);
    if prefix == path {
      PrefixText(namespace);
      FixedText(namespace, ROOT);
    } else if prefix + ROOT <= path {
      UnfixUnder(namespace, path);
    } else if prefix <= path {
      UnfixNeighbour(namespace, path);
    } else {
      PrefixText(namespace);
      FixedText(namespace, path);
      assert |prefix + path| > |path|;
    }
  }

  lemma UnfixUnder(namespace: Str, path: Str)
    requires Kept(namespace) && namespace != [] && ValidPath(path)
    requires ROOT + namespace + ROOT <= path
    ensures FixForNamespace(namespace, UnfixForNamespace(namespace, path)) == path
  {
    var prefix := ROOT + namespace;
    var inner := path[|prefix|..];
    assert path == prefix + inner;
    UnderNamespace(namespace, path);
    UnfixPrefixed(namespace, inner);
    FixedText(namespace, inner);
  }

  lemma UnfixPrefixed(namespace: Str, rest: Str)
    requires Kept(namespace) && namespace != [] && rest != []
    ensures UnfixForNamespace(namespace, ROOT + namespace + rest) == rest
  {
    PrefixText(namespace);
    PrefixCut(ROOT + namespace, rest);
  }

  lemma PrefixCut(prefix: Str, rest: Str)
    ensures prefix <= prefix + rest && (prefix + rest)[|prefix|..] == rest
  {
  }

  lemma UnfixNeighbour(namespace: Str, path: Str)
    requires Kept(namespace) && namespace != [] && ValidPath(path)
    requires ROOT + namespace <= path && ROOT + namespace != path && !(ROOT + namespace + ROOT <= path)
    ensures FixForNamespace(namespace, UnfixForNamespace(namespace, path)) != path
  {
    var prefix := ROOT + namespace;
    var inner := path[|prefix|..];
    NextByte(prefix, path);
    UnfixPrefixed(namespace, inner);
    FixedNeighbour(namespace, inner);
  }

  lemma NextByte(prefix: Str, path: Str)
    requires prefix <= path && prefix != path && !(prefix + ROOT <= path)
    ensures path == prefix + path[|prefix|..] && path[|prefix|..] != [] && path[|prefix|..][0] != SLASH
  {
    assert |prefix| < |path|;
    assert path[..|prefix| + 1] == prefix + [path[|prefix|]];
  }

  lemma FixedNeighbour(namespace: Str, inner: Str)
    requires Kept(namespace) && namespace != [] && inner != [] && inner[0] != SLASH
    ensures FixForNamespace(namespace, inner) != ROOT + namespace + inner
  {
    var prefix := ROOT + namespace;
    assert FixForNamespace(namespace, inner) == prefix + ROOT + Stripped(inner) by {
      PrefixText(namespace);
      JoinOneChild(prefix, inner);
    }
    assert (prefix + ROOT + Stripped(inner))[|prefix|] == SLASH && (prefix + inner)[|prefix|] == inner[0];
  }

  lemma UnderNamespace(namespace: Str, path: Str)
    requires Kept(namespace) && namespace != [] && ValidPath(path)
    requires ROOT + namespace + ROOT <= path
    ensures ValidPath(path[|namespace| + 1..]) && path[|namespace| + 1..] != ROOT
  {
    var t := path[|namespace| + 2..];
    assert path[|namespace| + 1..] == [SLASH] + t;
    assert ValidNames(Split(namespace) + Split(t)) by {
      assert path[1..] == namespace + [SLASH] + t;
      SplitAcrossSlash(namespace, t);
    }
    ValidNamesConcat(Split(namespace), Split(t));
    assert t == [] ==> Split(t)[0] == [] && !ValidName([]);
    assert ([SLASH] + t)[1..] == t;
  }

  /** A path that does not begin with the namespace's text is left alone. */
  lemma UnfixLeavesOthers(namespace: Str, path: Str)
    requires Kept(namespace) && (namespace == [] || !(ROOT + namespace <= path))
    ensures UnfixForNamespace(namespace, path) == path
  {
    if namespace != [] {
      PrefixText(namespace);
    }
  }

  /** `/apple` under the namespace `app` comes back as `le`. */
  lemma UnfixCutsIntoANeighbour()
    ensures var app := [0x61, 0x70, 0x70];
            && Kept(app)
            && UnfixForNamespace(app, ROOT + app + [0x6C, 0x65]) == [0x6C, 0x65]
  {
    var app := [0x61, 0x70, 0x70];
    assert ValidName(app) by {
      Utf8.AsciiIsClean(app);
    }
    assert Kept(app) by {
      ComponentsOfPathOf([app]);
      assert PathOf([app]) == ROOT + app + Render([]);
    }
    PrefixText(app);
  }

  lemma FixedSuffix(namespace: Str, path: Str, suffix: Str)
    requires Kept(namespace) && namespace != [] && ValidPath(path) && path != ROOT
    ensures FixForNamespace(namespace, path) + suffix == ROOT + namespace + (path + suffix)
  {
    FixedText(namespace, path);
    Associative(ROOT + namespace, path, suffix);
  }

  /** A sequential create appends digits to the path the server was given, and the client unfixes
      the result: what it reports is its own path with the same digits. */
  lemma UnfixKeepsSuffix(namespace: Str, path: Str, suffix: Str)
    requires Kept(namespace) && ValidPath(path) && path != ROOT
    ensures UnfixForNamespace(namespace, FixForNamespace(namespace, path) + suffix) == path + suffix
  {
    if namespace != [] {
      FixedSuffix(namespace, path, suffix);
      UnfixPrefixed(namespace, path + suffix);
    }
  }
}
