/**
 * Route paths (src/path.rs): an ordered sequence of segments, formatted as
 * "/" followed by the segments joined with "/", and parsed from a
 * "/"-delimited pattern string.
 *
 * The parser indexes a character vector with the component's byte length
 * and slices the component by bytes; it also drops two characters at the
 * end of a wildcard, so "[slug]" carries the name "slu". Components on
 * which the original panics are excluded by `ComponentOk`.
 */
module Paths {
  import opened Text
  import opened Segments

  /** `Path(pub Vec<Segment>)`; equality in the source's sense is `PathEq`. */
  type Path = seq<Segment>

  /** How `Display` renders one segment. */
  function Render(s: Segment): string {
    match s
    case Dynamic(name) => "[" + name + "]"
    case Literal(text) => text
  }

  function Rendered(p: Path): (r: seq<string>)
    ensures |r| == |p|
    ensures forall i :: 0 <= i < |p| ==> r[i] == Render(p[i])
  {
    seq(|p|, i requires 0 <= i < |p| => Render(p[i]))
  }

  /** `Display::fmt`: "/" and then the rendered segments joined with "/". */
  function Format(p: Path): (r: string)
    ensures |r| >= 1 && r[0] == '/'
  {
    "/" + Join(Rendered(p), "/")
  }

  /**
   * A non-empty component the parser accepts without panicking: one that
   * starts with '[' must be ASCII (its byte length indexes its characters)
   * and, if it also ends with ']', must be longer than "[]" (the name slice
   * would run backwards).
   */
  predicate ComponentOk(c: string) {
    c != [] && (c[0] == '[' ==> IsAscii(c) && (c[|c| - 1] == ']' ==> |c| >= 3))
  }

  /** One component: a wildcard when bracketed, else a literal taken verbatim. */
  function ParseComponent(c: string): (s: Segment)
    requires ComponentOk(c)
    ensures s.Dynamic? <==> (c[0] == '[' && c[|c| - 1] == ']')
    ensures s.Literal? ==> Render(s) == c
    ensures s.Dynamic? ==> |c| >= 3 && Render(s) == c[..|c| - 2] + "]"
  {
    if c[0] == '[' && c[|c| - 1] == ']' then
      Dynamic(c[1..|c| - 2])
    else
      Literal(c)
  }

  predicate ComponentsOk(cs: seq<string>) {
    forall i :: 0 <= i < |cs| && cs[i] != [] ==> ComponentOk(cs[i])
  }

  /** The segments parsed from a list of components, empty components skipped. */
  function ParseComponents(cs: seq<string>): (p: Path)
    requires ComponentsOk(cs)
    ensures |p| <= |cs|
    ensures forall i :: 0 <= i < |p| ==> p[i] != Literal([])
    decreases |cs|
  {
    if cs == [] then []
    else
      var last := cs[|cs| - 1];
      ParseComponents(cs[..|cs| - 1]) + (if last == [] then [] else [ParseComponent(last)])
  }

  /** The patterns `from_str` parses without panicking. */
  predicate PatternOk(s: string) {
    ComponentsOk(Split(s, '/'))
  }

  /** The parsed pattern: no segment is an empty literal, and none renders with a '/'. */
  function ParsePath(s: string): (p: Path)
    requires PatternOk(s)
    ensures forall i :: 0 <= i < |p| ==> p[i] != Literal([]) && '/' !in Render(p[i])
  {
    SplitPiecesLackSep(s, '/');
    ParsedLackSlash(Split(s, '/'));
    ParseComponents(Split(s, '/'))
  }

  /** A component without '/' parses to a segment that renders without '/'. */
  lemma ComponentLacksSlash(c: string)
    requires ComponentOk(c) && '/' !in c
    ensures '/' !in Render(ParseComponent(c))
  {
    var s := ParseComponent(c);
    if s.Dynamic? {
      assert forall j | 0 <= j < |c| - 2 :: c[..|c| - 2][j] == c[j];
    }
  }

  /** Components without '/' parse to segments that render without '/'. */
  lemma {:induction false} ParsedLackSlash(cs: seq<string>)
    requires ComponentsOk(cs)
    requires forall i | 0 <= i < |cs| :: '/' !in cs[i]
    ensures forall i | 0 <= i < |ParseComponents(cs)| :: '/' !in Render(ParseComponents(cs)[i])
    decreases |cs|
  {
    if cs != [] {
      ParsedLackSlash(cs[..|cs| - 1]);
      var last := cs[|cs| - 1];
      if last != [] {
        ComponentLacksSlash(last);
      }
    }
  }

  /** `FromStr::from_str`: walks the '/'-separated components, pushing one segment per non-empty one. */
  method FromStr(s: string) returns (p: Path)
    requires PatternOk(s)
    ensures p == ParsePath(s)
    ensures forall i :: 0 <= i < |p| ==> p[i] != Literal([])
  {
    var parts := Split(s, '/');
    var segments: Path := [];
    for i := 0 to |parts|
      invariant segments == ParseComponents(parts[..i])
    {
      assert parts[..i + 1][..i] == parts[..i];
      var part := parts[i];
      if part != [] {
        segments := segments + [ParseComponent(part)];
      }
    }
    assert parts[..|parts|] == parts;
    p := segments;
  }

  /** Parsing distributes over concatenation of component lists. */
  lemma {:induction false} ParseComponentsAppend(a: seq<string>, b: seq<string>)
    requires ComponentsOk(a) && ComponentsOk(b)
    ensures ComponentsOk(a + b)
    ensures ParseComponents(a + b) == ParseComponents(a) + ParseComponents(b)
    decreases |b|
  {
    if b == [] {
      assert a + b == a;
    } else {
      var b' := b[..|b| - 1];
      assert (a + b)[..|a + b| - 1] == a + b';
      ParseComponentsAppend(a, b');
    }
  }

  /** The empty path formats as "/". */
  lemma FormatEmpty()
    ensures Format([]) == "/"
  {
  }

  /** Formatting renders wildcards bracketed and literals verbatim, "/"-joined. */
  lemma FormatExamples()
    ensures Format([Literal("segment")]) == "/segment"
    ensures Format([Literal("segment"), Dynamic("slug")]) == "/segment/[slug]"
  {
    var r2 := Rendered([Literal("segment"), Dynamic("slug")]);
    assert r2[0] == "segment" && r2[1] == "[slug]";
    assert r2 == ["segment", "[slug]"];
    var r1 := Rendered([Literal("segment")]);
    assert r1 == ["segment"];
  }

  /** Splitting a formatted path gives an empty lead piece and then each rendered segment. */
  lemma FormatSplits(p: Path)
    requires forall i :: 0 <= i < |p| ==> '/' !in Render(p[i])
    ensures p != [] ==> Split(Format(p), '/') == [[]] + Rendered(p)
    ensures p == [] ==> Split(Format(p), '/') == [[], []]
  {
    SplitAppend([], '/', Join(Rendered(p), "/"));
    assert Format(p) == [] + ['/'] + Join(Rendered(p), "/");
    if p != [] {
      SplitJoin(Rendered(p), '/');
    }
  }

  /** A leading slash adds nothing to a parsed path. */
  lemma LeadingSlashAbsorbed(a: string)
    requires PatternOk(a)
    ensures PatternOk("/" + a) && ParsePath("/" + a) == ParsePath(a)
  {
    var e: string := [];
    assert ParseComponents([e]) == [];
    SplitAppend(e, '/', a);
    assert e + ['/'] + a == "/" + a;
    SplitNoSep(e, '/');
    ParseComponentsAppend([e], Split(a, '/'));
  }

  /** A trailing slash adds nothing to a parsed path. */
  lemma TrailingSlashAbsorbed(a: string)
    requires PatternOk(a)
    ensures PatternOk(a + "/") && ParsePath(a + "/") == ParsePath(a)
  {
    var e: string := [];
    assert ParseComponents([e]) == [];
    SplitAppend(a, '/', e);
    assert a + ['/'] + e == a + "/";
    SplitNoSep(e, '/');
    ParseComponentsAppend(Split(a, '/'), [e]);
  }

  /** A doubled slash parses like a single one. */
  lemma DoubledSlashAbsorbed(a: string, b: string)
    requires PatternOk(a) && PatternOk(b)
    ensures PatternOk(a + "//" + b) && PatternOk(a + "/" + b)
    ensures ParsePath(a + "//" + b) == ParsePath(a + "/" + b)
  {
    LeadingSlashAbsorbed(b);
    SplitAppend(a, '/', "/" + b);
    assert a + ['/'] + ("/" + b) == a + "//" + b;
    SplitAppend(a, '/', b);
    assert a + ['/'] + b == a + "/" + b;
    ParseComponentsAppend(Split(a, '/'), Split(b, '/'));
    ParseComponentsAppend(Split(a, '/'), Split("/" + b, '/'));
  }

  /** Segments that survive a format-then-parse round trip. */
  predicate SegmentOk(s: Segment) {
    match s
    case Literal(t) =>
      && t != [] && '/' !in t
      && !(t[0] == '[' && t[|t| - 1] == ']')
      && (t[0] == '[' ==> IsAscii(t))
    case Dynamic(n) => n != [] && '/' !in n && IsAscii(n)
  }

  lemma ParseRender(s: Segment)
    requires SegmentOk(s)
    ensures ComponentOk(Render(s)) && '/' !in Render(s)
    ensures SegEq(ParseComponent(Render(s)), s)
  {
    if s.Dynamic? {
      var c := Render(s);
      assert c[0] == '[' && c[|c| - 1] == ']';
      assert IsAscii(c) by {
        forall i | 0 <= i < |c| ensures c[i] < 128 as char {
          if 0 < i < |c| - 1 { assert c[i] == s.name[i - 1]; }
        }
      }
      assert '/' !in c by {
        forall i | 0 <= i < |c| ensures c[i] != '/' {
          if 0 < i < |c| - 1 { assert c[i] == s.name[i - 1]; }
        }
      }
    }
  }

  lemma {:induction false} ParseRendered(p: Path)
    requires forall i :: 0 <= i < |p| ==> SegmentOk(p[i])
    ensures ComponentsOk(Rendered(p))
    ensures PathEq(ParseComponents(Rendered(p)), p)
    decreases |p|
  {
    if p != [] {
      var n := |p| - 1;
      ParseRender(p[n]);
      forall i | 0 <= i < |p| ensures ComponentOk(Rendered(p)[i]) {
        ParseRender(p[i]);
      }
      ParseRendered(p[..n]);
      assert Rendered(p)[..n] == Rendered(p[..n]);
      var q := ParseComponents(Rendered(p));
      assert q == ParseComponents(Rendered(p[..n])) + [ParseComponent(Render(p[n]))];
    }
  }

  /**
   * Round trip: a path whose literals are non-empty, '/'-free and not
   * bracketed and whose wildcard names are non-empty, ASCII and '/'-free
   * formats to a pattern that parses without panicking back to an equal path.
   */
  lemma RoundTrip(p: Path)
    requires forall i :: 0 <= i < |p| ==> SegmentOk(p[i])
    ensures PatternOk(Format(p))
    ensures PathEq(ParsePath(Format(p)), p)
  {
    forall i | 0 <= i < |p| ensures '/' !in Render(p[i]) {
      ParseRender(p[i]);
    }
    FormatSplits(p);
    var e: string := [];
    assert ComponentsOk([e]);
    assert ParseComponents([e]) == [];
    if p == [] {
      ParseComponentsAppend([e], [e]);
      assert [e] + [e] == [e, e];
    } else {
      ParseRendered(p);
      ParseComponentsAppend([e], Rendered(p));
      assert ParseComponents([e] + Rendered(p)) == ParseComponents(Rendered(p));
    }
  }

  lemma SplitExampleTail(tail: string)
    requires tail == "test/[slug]"
    ensures Split(tail, '/') == ["test", "[slug]"]
  {
    SplitAppend("test", '/', "[slug]");
    assert "test" + ['/'] + "[slug]" == tail;
    SplitNoSep("test", '/');
    SplitNoSep("[slug]", '/');
  }

  /** "/test/[slug]" splits into an empty lead piece, "test" and "[slug]". */
  lemma SplitExample(pattern: string)
    requires pattern == "/test/[slug]"
    ensures Split(pattern, '/') == [[], "test", "[slug]"]
  {
    var tail := pattern[1..];
    SplitExampleTail(tail);
    SplitAppend([], '/', tail);
    assert [] + ['/'] + tail == pattern;
    SplitNoSep([], '/');
  }

  lemma ParseExampleComponents()
    ensures ComponentOk("test") && ParseComponent("test") == Literal("test")
    ensures ComponentOk("[slug]") && ParseComponent("[slug]") == Dynamic("slu")
  {
    assert IsAscii("[slug]");
  }

  /** "/test/[slug]" parses to a literal and a (truncated) wildcard. */
  lemma ParseExample(pattern: string)
    requires pattern == "/test/[slug]"
    ensures PatternOk(pattern)
    ensures ParsePath(pattern) == [Literal("test"), Dynamic("slu")]
  {
    SplitExample(pattern);
    ParseExampleComponents();
    var parts: seq<string> := [[], "test", "[slug]"];
    assert ComponentsOk(parts);
    assert parts[..1] == [[]] && parts[..1][..0] == [];
    assert ParseComponents(parts[..1]) == [];
    assert parts[..2][..1] == parts[..1];
    assert ParseComponents(parts[..2]) == [Literal("test")];
    assert parts[..2] == parts[..|parts| - 1];
  }

  /** The parsed path equals the one written with the full name, and differs from one with another literal. */
  lemma ParseExampleEquality(pattern: string)
    requires pattern == "/test/[slug]"
    ensures PatternOk(pattern)
    ensures PathEq(ParsePath(pattern), [Literal("test"), Dynamic("slug")])
    ensures !PathEq(ParsePath(pattern), [Literal("another_segment"), Dynamic("slug")])
  {
    ParseExample(pattern);
    var p := ParsePath(pattern);
    assert p[0] == Literal("test");
    assert "test" != "another_segment" by { assert |"test"| != |"another_segment"|; }
    assert !SegEq(p[0], Literal("another_segment"));
  }
}
