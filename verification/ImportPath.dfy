// parseImportPath of pkg/dependencies/graph.go and its two scanning loops.  Strings are sequences
// of the bytes of the Go string.
module ImportPaths {
  import opened ByteStrings
  import opened DependencyGraphs

  const PROTO := ".proto"

  method IndexByte(s: string, c: char) returns (i: int)
    ensures i == FirstIndex(s, c)
  {
    i := 0;
    while i < |s|
      invariant 0 <= i <= |s| && c !in s[..i]
    {
      if s[i] == c {
        FirstIndexUnique(s, c, i);
        return;
      }
      i := i + 1;
    }
    i := -1;
  }

  /** The nonempty stretches between slashes. */
  function Parts(path: string): seq<string>
    decreases |path|
  {
    var i := FirstIndex(path, '/');
    if i == -1 then (if path == "" then [] else [path])
    else (if i == 0 then [] else [path[..i]]) + Parts(path[i + 1..])
  }

  predicate IsName(p: string) {
    p != "" && '/' !in p
  }

  lemma {:induction false} PartsAreNames(path: string)
    ensures forall p | p in Parts(path) :: IsName(p)
    decreases |path|
  {
    var i := FirstIndex(path, '/');
    hide FirstIndex, IsName;
    if i == -1 {
      assert path != "" ==> IsName(path) by {
        WholeIsName(path);
      }
    } else {
      PartsAreNames(path[i + 1..]);
      if i != 0 {
        WholeIsName(path[..i]);
      }
    }
  }

  lemma WholeIsName(p: string)
    requires '/' !in p
    ensures p != "" ==> IsName(p)
  {
  }

  lemma {:induction false} PartsAtSlash(a: string, b: string)
    ensures Parts(a + "/" + b) == Parts(a) + Parts(b)
    decreases |a|
  {
    hide FirstIndex;
    var s := a + "/" + b;
    var i := FirstIndex(a, '/');
    if i == -1 {
      SplitAt(a, '/', b);
    } else {
      assert a == a[..i] + ['/'] + a[i + 1..];
      assert s == a[..i] + ['/'] + (a[i + 1..] + "/" + b);
      SplitAt(a[..i], '/', a[i + 1..] + "/" + b);
      PartsAtSlash(a[i + 1..], b);
    }
  }

  lemma WholePart(p: string)
    requires '/' !in p
    ensures Parts(p) == if p == "" then [] else [p]
  {
  }

  lemma NextPart(path: string, start: nat, i: nat)
    requires start <= i < |path| && path[i] == '/' && '/' !in path[start..i]
    ensures Parts(path[start..]) == (if i > start then [path[start..i]] else []) + Parts(path[i + 1..])
  {
    var piece := path[start..i];
    assert path[start..] == piece + "/" + path[i + 1..];
    PartsAtSlash(piece, path[i + 1..]);
    WholePart(piece);
  }

  method SplitPath(path: string) returns (parts: seq<string>)
    ensures parts == Parts(path)
  {
    hide FirstIndex, Parts;
    parts := [];
    var start := 0;
    for i := 0 to |path|
      invariant 0 <= start <= i
      invariant '/' !in path[start..i]
      invariant parts + Parts(path[start..]) == Parts(path)
    {
      if path[i] == '/' {
        NextPart(path, start, i);
        if i > start {
          parts := parts + [path[start..i]];
        }
        start := i + 1;
      }
    }
    WholePart(path[start..]);
    if start < |path| {
      parts := parts + [path[start..]];
    }
  }

  /** A version of the form x.proto with something before the extension. */
  predicate Strippable(version: string) {
    |version| > |PROTO| && version[|version| - |PROTO|..] == PROTO
  }

  function VersionOf(versionPart: string): string {
    var slash := FirstIndex(versionPart, '/');
    if slash != -1 then versionPart[..slash]
    else if Strippable(versionPart) then versionPart[..|versionPart| - |PROTO|]
    else versionPart
  }

  /** Module and version named by an import path; ("", "") when it names none. */
  function Parsed(path: string): (string, string) {
    var at := FirstIndex(path, '@');
    var idx := if at == -1 then FirstIndex(path, '-') else at;
    if idx != -1 then (path[..idx], VersionOf(path[idx + 1..]))
    else
      var parts := Parts(path);
      if |parts| >= 2 && parts[1] != "" && parts[1][0] == 'v' then (parts[0], parts[1]) else ("", "")
  }

  /** What parseImportPath does with the part after the separator. */
  method ParseVersion(versionPart: string) returns (version: string)
    ensures version == VersionOf(versionPart)
  {
    hide FirstIndex;
    var slashIdx := IndexByte(versionPart, '/');
    if slashIdx != -1 {
      version := versionPart[..slashIdx];
    } else {
      version := versionPart;
      if |version| > 6 && version[|version| - 6..] == PROTO {
        version := version[..|version| - 6];
      }
    }
  }

  method ParseImportPath(path: string) returns (moduleName: string, version: string)
    ensures (moduleName, version) == Parsed(path)
  {
    hide FirstIndex, Parts, VersionOf;
    var idx := IndexByte(path, '@');
    if idx == -1 {
      idx := IndexByte(path, '-');
    }
    if idx != -1 {
      moduleName := path[..idx];
      version := ParseVersion(path[idx + 1..]);
      return;
    }
    var parts := SplitPath(path);
    if |parts| >= 2 {
      moduleName := parts[0];
      if |parts[1]| > 0 && parts[1][0] == 'v' {
        version := parts[1];
        return;
      }
    }
    return "", "";
  }

  lemma PartsKeepCharacters(path: string, c: char)
    requires c !in path
    ensures forall p | p in Parts(path) :: c !in p
    decreases |path|
  {
    var i := FirstIndex(path, '/');
    if i != -1 {
      PartsKeepCharacters(path[i + 1..], c);
    }
  }

  /** A parsed module name never contains '@'. */
  lemma ParsedModuleHasNoAt(path: string)
    ensures '@' !in Parsed(path).0
  {
    if FirstIndex(path, '@') == -1 && FirstIndex(path, '-') == -1 {
      PartsKeepCharacters(path, '@');
    }
  }

  lemma VersionIsWhole(v: string)
    ensures VersionOf(v) == v <==> '/' !in v && !Strippable(v)
  {
  }

  lemma VersionBeforeSlash(v: string, rest: string)
    ensures VersionOf(v + "/" + rest) == v <==> '/' !in v
  {
    hide FirstIndex;
    if '/' !in v {
      SplitAt(v, '/', rest);
    } else {
      var i := FirstIndex(v, '/');
      assert v == v[..i] + ['/'] + v[i + 1..];
      assert v + "/" + rest == v[..i] + ['/'] + (v[i + 1..] + "/" + rest);
      SplitAt(v[..i], '/', v[i + 1..] + "/" + rest);
    }
  }

  /** Parsing inverts the key format on exactly the versions without '/' or a strippable extension. */
  lemma ParseInvertsKey(m: string, v: string)
    requires '@' !in m
    ensures Parsed(ModuleVersionKey(m, v)) == (m, v) <==> '/' !in v && !Strippable(v)
  {
    SplitAt(m, '@', v);
  }

  /** With a path after the version, any version without '/' is recovered. */
  lemma ParseInvertsKeyWithPath(m: string, v: string, rest: string)
    requires '@' !in m
    ensures Parsed(ModuleVersionKey(m, v) + "/" + rest) == (m, v) <==> '/' !in v
  {
    hide VersionOf;
    assert ModuleVersionKey(m, v) + "/" + rest == m + "@" + (v + "/" + rest);
    SplitAt(m, '@', v + "/" + rest);
    VersionBeforeSlash(v, rest);
  }

  /** module/version/file is read as such exactly when neither '@' nor '-' occurs anywhere in it:
      a dash in a module name, a pre-release version or a file name makes it parse as something else. */
  lemma ParsePathForm(m: string, v: string, file: string)
    requires m != "" && '/' !in m && '/' !in v && v != "" && v[0] == 'v'
    ensures Parsed(m + "/" + v + "/" + file) == (m, v)
       <==> '@' !in m + "/" + v + "/" + file && '-' !in m + "/" + v + "/" + file
  {
    hide FirstIndex, Parts, VersionOf;
    var path := m + "/" + v + "/" + file;
    assert path == m + "/" + (v + "/" + file);
    PartsAtSlash(m, v + "/" + file);
    PartsAtSlash(v, file);
    WholePart(m);
    WholePart(v);
    assert path[|m|] == '/' && Parts(path) == [m, v] + Parts(file);
  }

  /** The documented path form is misread once the module name has a dash: whatever follows the
      dash up to the next slash is taken for the version. */
  lemma DashedModuleIsMisread(a: string, b: string, rest: string)
    requires '-' !in a && '/' !in b && '@' !in a + b + rest
    ensures Parsed((a + "-" + b) + "/" + rest) == (a, b)
  {
    hide FirstIndex, Parts;
    var path := (a + "-" + b) + "/" + rest;
    assert path == a + ['-'] + (b + "/" + rest);
    assert '@' !in a && '@' !in b && '@' !in rest;
    SplitAt(a, '-', b + "/" + rest);
    SplitAt(b, '/', rest);
  }

  // ---- what is left of a version

  /** A strippable version is something, and then the literal extension. */
  lemma StrippableIff(s: string)
    ensures Strippable(s) <==> exists v :: v != "" && s == v + ".proto"
  {
    if Strippable(s) {
      assert s == s[..|s| - 6] + ".proto";
    }
  }

  /** Only that extension, and only from a version with nothing behind it, is taken off. */
  lemma VersionWithExtension(v: string)
    requires v != "" && '/' !in v
    ensures VersionOf(v + ".proto") == v
  {
    hide FirstIndex;
    assert '/' !in v + ".proto" && (v + ".proto")[..|v|] == v;
    assert (v + ".proto")[|v|..] == ".proto";
  }

  /** With an '@', the path is cut at the first one. */
  lemma ParseAtForm(a: string, b: string)
    requires '@' !in a
    ensures Parsed(a + "@" + b) == (a, VersionOf(b))
  {
    SplitAt(a, '@', b);
    hide FirstIndex, VersionOf, Parts;
  }

  /** The extension of module@version.proto is dropped. */
  lemma ParseKeyWithExtension(m: string, v: string)
    requires '@' !in m && v != "" && '/' !in v
    ensures Parsed(m + "@" + v + ".proto") == (m, v)
    ensures '-' !in m && '@' !in v ==> Parsed(Sanitized(m + "@" + v + ".proto")) == (m, v)
  {
    hide Parsed, VersionOf, Sanitized;
    assert m + "@" + v + ".proto" == m + "@" + (v + ".proto");
    ParseAtForm(m, v + ".proto");
    VersionWithExtension(v);
    if '-' !in m && '@' !in v {
      SanitizedJoin(m, '@', v + ".proto");
      SanitizedCharacters(m);
      SanitizedCharacters(v + ".proto");
      assert Sanitized("@") == "-";
      ParseDashForm(m, v + ".proto");
    }
  }

  // ---- paths without a separator

  predicate AllSlashes(s: string) {
    forall i | 0 <= i < |s| :: s[i] == '/'
  }

  /** The first two segments of the path, whatever the number of slashes, are m and v. */
  ghost predicate BeginsWith(path: string, m: string, v: string) {
    && IsName(m) && IsName(v)
    && exists lead, gap, rest :: Spells(path, lead, m, gap, v, rest)
  }

  ghost predicate Spells(path: string, lead: string, m: string, gap: string, v: string, rest: string) {
    && path == lead + m + gap + v + rest
    && AllSlashes(lead) && AllSlashes(gap) && gap != "" && (rest != "" ==> rest[0] == '/')
  }

  lemma {:induction false} SlashesHaveNoParts(lead: string, tail: string)
    requires AllSlashes(lead)
    ensures Parts(lead + tail) == Parts(tail)
  {
    hide Parts;
    if lead == "" {
      assert lead + tail == tail;
    } else {
      var rest := lead[1..];
      assert lead == "/" + rest;
      SlashesHaveNoParts(rest, tail);
      assert lead + tail == "" + "/" + (rest + tail);
      PartsAtSlash("", rest + tail);
      WholePart("");
    }
  }

  lemma NameIsFirstPart(m: string, tail: string)
    requires IsName(m) && (tail != "" ==> tail[0] == '/')
    ensures Parts(m + tail) == [m] + Parts(tail)
  {
    hide Parts;
    WholePart(m);
    if tail == "" {
      assert m + tail == m;
      WholePart("");
    } else {
      assert tail == "/" + tail[1..] && m + tail == m + "/" + tail[1..];
      PartsAtSlash(m, tail[1..]);
      SlashesHaveNoParts("/", tail[1..]);
    }
  }

  lemma SpelledParts(path: string, lead: string, m: string, gap: string, v: string, rest: string)
    requires IsName(m) && IsName(v) && Spells(path, lead, m, gap, v, rest)
    ensures Parts(path) == [m, v] + Parts(rest)
  {
    hide Parts, IsName;
    assert path == lead + (m + (gap + (v + rest)));
    SlashesHaveNoParts(lead, m + (gap + (v + rest)));
    NameIsFirstPart(m, gap + (v + rest));
    SlashesHaveNoParts(gap, v + rest);
    NameIsFirstPart(v, rest);
  }

  /** The path begins with slashes and the name m; its other parts are those of the tail. */
  ghost predicate Leads(path: string, lead: string, m: string, tail: string) {
    && IsName(m) && path == lead + m + tail && AllSlashes(lead) && (tail != "" ==> tail[0] == '/')
    && Parts(path) == [m] + Parts(tail)
  }

  lemma {:induction false} FirstSegment(path: string) returns (lead: string, tail: string)
    requires Parts(path) != []
    ensures Leads(path, lead, Parts(path)[0], tail)
    decreases |path|
  {
    var i := FirstIndex(path, '/');
    hide FirstIndex, Parts, IsName, Leads;
    if i == -1 {
      lead, tail := "", "";
      NameAlone(path);
    } else {
      var rest := path[i + 1..];
      assert path == path[..i] + "/" + rest;
      if i == 0 {
        SlashFirst(rest);
        assert path == "/" + rest;
        lead, tail := FirstSegment(rest);
        LeadsLater(rest, lead, Parts(rest)[0], tail);
        lead := "/" + lead;
      } else {
        lead, tail := "", "/" + rest;
        NameThenSlash(path[..i], rest);
      }
    }
  }

  lemma NameAlone(path: string)
    requires '/' !in path && Parts(path) != []
    ensures Leads(path, "", Parts(path)[0], "")
  {
    WholePart(path);
    WholePart("");
    hide Parts;
    assert path == "" + path + "";
  }

  lemma SlashFirst(rest: string)
    ensures Parts("/" + rest) == Parts(rest)
  {
    hide Parts;
    SlashesHaveNoParts("/", rest);
  }

  lemma NameThenSlash(m: string, rest: string)
    requires m != "" && '/' !in m
    ensures Parts(m + "/" + rest) != [] && Leads(m + "/" + rest, "", Parts(m + "/" + rest)[0], "/" + rest)
  {
    hide Parts;
    assert m + "/" + rest == m + ("/" + rest) == "" + m + ("/" + rest);
    NameIsFirstPart(m, "/" + rest);
  }

  lemma LeadsLater(path: string, lead: string, m: string, tail: string)
    requires Leads(path, lead, m, tail)
    ensures Leads("/" + path, "/" + lead, m, tail)
  {
    hide Parts, IsName;
    SlashFirst(path);
    assert "/" + path == ("/" + lead) + m + tail;
  }

  lemma TwoSegments(path: string)
    requires |Parts(path)| >= 2
    ensures BeginsWith(path, Parts(path)[0], Parts(path)[1])
  {
    hide Parts, IsName;
    var lead, tail := FirstSegment(path);
    var m := Parts(path)[0];
    assert Parts(tail) == Parts(path)[1..];
    var gap, rest := FirstSegment(tail);
    var v := Parts(tail)[0];
    NameIsNotEmpty(v);
    assert path == lead + m + gap + v + rest;
    assert Spells(path, lead, m, gap, v, rest);
  }

  lemma NameIsNotEmpty(p: string)
    requires IsName(p)
    ensures p != "" && p[0] != '/'
  {
  }

  /** A path without '@' and '-' names the module and version that are its first two segments, exactly
      when it has two and the second begins with 'v'; otherwise it names nothing. */
  lemma PathNamesModuleIff(path: string)
    requires '@' !in path && '-' !in path
    ensures forall m, v :: Parsed(path) == (m, v) && m != "" <==> BeginsWith(path, m, v) && v[0] == 'v'
    ensures (forall m, v :: BeginsWith(path, m, v) ==> v[0] != 'v') ==> Parsed(path) == ("", "")
  {
    hide Parts, VersionOf, FirstIndex, IsName;
    assert FirstIndex(path, '@') == -1 && FirstIndex(path, '-') == -1;
    var parts := Parts(path);
    if |parts| >= 2 {
      TwoSegments(path);
      NameIsNotEmpty(parts[0]);
      NameIsNotEmpty(parts[1]);
    }
    forall m, v | BeginsWith(path, m, v) ensures |parts| >= 2 && parts[0] == m && parts[1] == v && v != "" {
      var lead, gap, rest :| Spells(path, lead, m, gap, v, rest);
      SpelledParts(path, lead, m, gap, v, rest);
      NameIsNotEmpty(v);
    }
  }

  /** Such as google/protobuf/timestamp.proto, or a file name alone. */
  lemma UnversionedNamesNothing(m: string, p: string, rest: string)
    requires IsName(m) && '@' !in m && '-' !in m
    requires IsName(p) && '@' !in p && '-' !in p && p[0] != 'v' && '@' !in rest && '-' !in rest
    ensures Parsed(m + "/" + p + "/" + rest) == ("", "") && Parsed(m) == ("", "")
  {
    hide Parsed, Parts, IsName;
    var path := m + "/" + p + "/" + rest;
    PathNamesModuleIff(path);
    assert Spells(path, "", m, "/", p, "/" + rest);
    SpelledParts(path, "", m, "/", p, "/" + rest);
    SecondSegmentIsUnique(path, m, p);
    PathNamesModuleIff(m);
    OneSegmentOnly(m);
  }

  lemma SecondSegmentIsUnique(path: string, m: string, p: string)
    requires |Parts(path)| >= 2 && Parts(path)[1] == p
    ensures forall a, b | BeginsWith(path, a, b) :: b == p
  {
    hide Parts, IsName;
    forall a, b | BeginsWith(path, a, b) ensures b == p {
      var lead, gap, rest :| Spells(path, lead, a, gap, b, rest);
      SpelledParts(path, lead, a, gap, b, rest);
    }
  }

  lemma OneSegmentOnly(m: string)
    requires IsName(m)
    ensures forall a, b :: !BeginsWith(m, a, b)
  {
    WholePart(m);
    hide Parts, IsName;
    forall a, b ensures !BeginsWith(m, a, b) {
      if BeginsWith(m, a, b) {
        var lead, gap, rest :| Spells(m, lead, a, gap, b, rest);
        SpelledParts(m, lead, a, gap, b, rest);
      }
    }
  }

  // ---- imports as the parser hands them on

  /** The import path that the parser reads: every '@' of the source text has become a dash. */
  function Sanitized(path: string): (r: string)
    ensures |r| == |path| && '@' !in r
    ensures forall i | 0 <= i < |path| :: r[i] == if path[i] == '@' then '-' else path[i]
  {
    seq(|path|, i requires 0 <= i < |path| => if path[i] == '@' then '-' else path[i])
  }

  lemma SanitizedJoin(a: string, c: char, b: string)
    ensures Sanitized(a + [c] + b) == Sanitized(a) + Sanitized([c]) + Sanitized(b)
  {
  }

  lemma SanitizedCharacters(s: string)
    ensures '@' !in s ==> Sanitized(s) == s
    ensures '@' in s ==> '-' in Sanitized(s) && Sanitized(s) != s
    ensures '-' !in Sanitized(s) <==> '@' !in s && '-' !in s
    ensures '/' in Sanitized(s) <==> '/' in s
  {
    var r := Sanitized(s);
    if '@' !in s {
      assert r == s;
    } else {
      var i :| 0 <= i < |s| && s[i] == '@';
      assert r[i] == '-';
    }
    if '-' in s {
      var i :| 0 <= i < |s| && s[i] == '-';
      assert r[i] == '-';
    }
    if '/' in s {
      var i :| 0 <= i < |s| && s[i] == '/';
      assert r[i] == '/';
    }
  }

  lemma VersionKeepsCharacters(v: string, c: char)
    requires c !in v
    ensures c !in VersionOf(v)
  {
    hide FirstIndex;
  }

  /** Without an '@', a path is cut at its first dash. */
  lemma ParseDashForm(a: string, b: string)
    requires '@' !in a && '@' !in b
    ensures '-' !in a ==> Parsed(a + "-" + b) == (a, VersionOf(b))
    ensures '-' in a ==> |Parsed(a + "-" + b).0| < |a|
  {
    hide VersionOf, Parts;
    var path := a + "-" + b;
    assert '@' !in path;
    if '-' !in a {
      SplitAt(a, '-', b);
    } else {
      var i := FirstIndex(a, '-');
      hide FirstIndex;
      assert a == a[..i] + ['-'] + a[i + 1..];
      assert path == a[..i] + ['-'] + (a[i + 1..] + "-" + b);
      SplitAt(a[..i], '-', a[i + 1..] + "-" + b);
    }
  }

  /** module@version, as the parser hands it on, is read correctly exactly when the module has neither
      '@' nor a dash, and the version neither '@' nor '/' nor a strippable extension. */
  lemma ParseImportedKey(m: string, v: string)
    ensures Parsed(Sanitized(m + "@" + v)) == (m, v)
       <==> '@' !in m && '-' !in m && '@' !in v && '/' !in v && !Strippable(v)
  {
    hide Parsed, VersionOf, Strippable, Sanitized;
    SanitizedJoin(m, '@', v);
    SanitizedCharacters(m);
    SanitizedCharacters(v);
    assert Sanitized("@") == "-";
    ParseDashForm(Sanitized(m), Sanitized(v));
    VersionIsWhole(v);
    VersionKeepsCharacters(Sanitized(v), '@');
  }

  /** The same with a path after the version. */
  lemma ParseImportedKeyWithPath(m: string, v: string, rest: string)
    ensures Parsed(Sanitized(m + "@" + v + "/" + rest)) == (m, v)
       <==> '@' !in m && '-' !in m && '@' !in v && '/' !in v
  {
    hide Parsed, VersionOf, Strippable, Sanitized;
    var after := v + "/" + rest;
    assert m + "@" + v + "/" + rest == m + "@" + after;
    SanitizedJoin(m, '@', after);
    SanitizedJoin(v, '/', rest);
    SanitizedCharacters(m);
    SanitizedCharacters(v);
    assert Sanitized("@") == "-" && Sanitized("/") == "/";
    ParseDashForm(Sanitized(m), Sanitized(after));
    VersionBeforeSlash(Sanitized(v), Sanitized(rest));
    VersionKeepsCharacters(Sanitized(after), '@');
    if '@' !in v {
      assert Sanitized(after) == v + "/" + Sanitized(rest);
    }
  }

  /** The path form, as the parser hands it on, has the condition that it has by itself. */
  lemma ParseImportedPath(m: string, v: string, file: string)
    requires m != "" && '/' !in m && '/' !in v && v != "" && v[0] == 'v'
    ensures Parsed(Sanitized(m + "/" + v + "/" + file)) == (m, v)
       <==> '@' !in m + "/" + v + "/" + file && '-' !in m + "/" + v + "/" + file
  {
    hide Parts, VersionOf, Sanitized;
    var path := m + "/" + v + "/" + file;
    SanitizedCharacters(path);
    if '@' !in path {
      ParsePathForm(m, v, file);
    } else {
      var s := Sanitized(path);
      var i := FirstIndex(s, '-');
      hide FirstIndex;
      assert FirstIndex(s, '@') == -1 && Parsed(s).0 == s[..i];
      assert path[|m|] == '/' && s[|m|] == '/';
      assert |Parsed(s).0| == i != |m|;
    }
  }

  /** An explicit import of a module with a dash in its name: the rest of the name goes to the version. */
  lemma DashedImportIsMisread(a: string, b: string, v: string)
    requires '@' !in a && '-' !in a && '@' !in b && '/' !in b && '@' !in v && '/' !in v
    ensures Parsed(Sanitized((a + "-" + b) + "@" + v)).0 == a
    ensures !Strippable(b + "-" + v) ==> Parsed(Sanitized((a + "-" + b) + "@" + v)) == (a, b + "-" + v)
  {
    hide Parsed, VersionOf, Strippable, Sanitized;
    SanitizedJoin(a + "-" + b, '@', v);
    SanitizedCharacters(a + "-" + b);
    SanitizedCharacters(v);
    assert Sanitized("@") == "-";
    assert (a + "-" + b) + "-" + v == a + "-" + (b + "-" + v);
    ParseDashForm(a, b + "-" + v);
    VersionIsWhole(b + "-" + v);
  }

  /** From such a path neither name can hold an '@', nor the module name a dash. */
  lemma ParsedWithoutAt(path: string)
    requires '@' !in path
    ensures '@' !in Parsed(path).0 && '@' !in Parsed(path).1 && '-' !in Parsed(path).0
  {
    hide FirstIndex, Parts, VersionOf;
    var i := FirstIndex(path, '-');
    if i != -1 {
      VersionKeepsCharacters(path[i + 1..], '@');
    } else {
      PartsKeepCharacters(path, '@');
      PartsKeepCharacters(path, '-');
    }
  }
}
