// Paths under strict privacy: strictPath and isRouteTemplate.
module StrictPath {
  import opened Ascii

  predicate NotSlash(c: char) {
    c != '/'
  }

  predicate NotQuery(c: char) {
    c != '?' && c != '#'
  }

  function Segments(path: string): (segments: seq<string>)
    ensures segments != []
  {
    var k := SpanLen(NotSlash, path);
    if k == |path| then [path] else [path[..k]] + Segments(path[k + 1..])
  }

  predicate Wrapped(segment: string, open: char, close: char) {
    |segment| > 2 && segment[0] == open && segment[|segment| - 1] == close
  }

  /** A segment that stands for a value: a colon before a name, a star, or a name in braces, angle or square
      brackets. */
  predicate IsParameter(segment: string) {
    || (|segment| > 1 && segment[0] == ':')
    || (segment != "" && segment[0] == '*')
    || Wrapped(segment, '{', '}') || Wrapped(segment, '<', '>') || Wrapped(segment, '[', ']')
  }

  predicate IsTemplate(path: string) {
    exists segment :: segment in Segments(path) && IsParameter(segment)
  }

  function NonEmpty(segments: seq<string>): seq<string> {
    if segments == [] then []
    else (if segments[0] == "" then [] else [segments[0]]) + NonEmpty(segments[1..])
  }

  predicate HasDigit(s: string) {
    exists k :: 0 <= k < |s| && IsDigit(s[k])
  }

  /** What is kept of a raw path's first segment. */
  function KeptSegment(segment: string): string {
    if HasDigit(segment) || |segment| > 40 then ":id" else segment
  }

  function WithoutQuery(path: string): string {
    path[..SpanLen(NotQuery, path)]
  }

  function Reduced(leadingSlash: bool, segments: seq<string>): string {
    if segments == [] then "/"
    else
      (if leadingSlash then "/" else "") + KeptSegment(segments[0]) + (if |segments| > 1 then "/:path" else "")
  }

  function StrictPathOf(path: string): string {
    var p := WithoutQuery(path);
    if IsTemplate(p) then p else Reduced(p != "" && p[0] == '/', NonEmpty(Segments(p)))
  }

  method IsRouteTemplate(path: string) returns (template: bool)
    ensures template == IsTemplate(path)
  {
    var segments := Segments(path);
    for i := 0 to |segments|
      invariant forall j :: 0 <= j < i ==> !IsParameter(segments[j])
    {
      if IsParameter(segments[i]) {
        return true;
      }
    }
    return false;
  }

  lemma {:induction false} NonEmptyGrows(segments: seq<string>, i: nat)
    requires i < |segments|
    ensures NonEmpty(segments[..i + 1]) == NonEmpty(segments[..i]) + (if segments[i] == "" then [] else [segments[i]])
    decreases i
  {
    if i == 0 {
      assert segments[..1][1..] == [];
    } else {
      NonEmptyGrows(segments[1..], i - 1);
      assert segments[..i + 1][1..] == segments[1..][..i] && segments[..i][1..] == segments[1..][..i - 1];
    }
  }

  method StrictPath(path: string) returns (strict: string)
    ensures strict == StrictPathOf(path)
  {
    hide Segments, IsParameter, KeptSegment;
    var end := SpanEnd(NotQuery, path, 0);
    assert path[0..] == path;
    var p := path[..end];
    var template := IsRouteTemplate(p);
    if template {
      return p;
    }
    var all := Segments(p);
    var segments := [];
    for i := 0 to |all|
      invariant segments == NonEmpty(all[..i])
    {
      NonEmptyGrows(all, i);
      if all[i] != "" {
        segments := segments + [all[i]];
      }
    }
    assert all[..|all|] == all;
    if segments == [] {
      return "/";
    }
    strict := KeptSegment(segments[0]);
    if p != "" && p[0] == '/' {
      strict := "/" + strict;
    }
    if |segments| > 1 {
      strict := strict + "/:path";
    }
  }

  // ---------------------------------------------------------------- splitting

  lemma SegmentsOfJoin(x: string, y: string)
    requires '/' !in x
    ensures Segments(x + "/" + y) == [x] + Segments(y)
  {
    var s := x + "/" + y;
    assert forall j :: 0 <= j < |x| ==> s[j] == x[j] && x[j] in x;
    SpanLenIs(NotSlash, s, |x|);
    assert s[..|x|] == x && s[|x| + 1..] == y;
  }

  lemma SegmentsOfOne(x: string)
    requires '/' !in x
    ensures Segments(x) == [x]
  {
  }

  /** Segments hold no slash, and no byte the path does not hold. */
  lemma {:induction false} SegmentsArePieces(path: string, segment: string)
    requires segment in Segments(path)
    ensures '/' !in segment && forall c :: c in segment ==> c in path
    decreases |path|
  {
    var k := SpanLen(NotSlash, path);
    if k < |path| {
      var rest := path[k + 1..];
      if segment in Segments(rest) {
        SegmentsArePieces(rest, segment);
        assert forall c :: c in rest ==> c in path;
      } else {
        assert segment == path[..k];
      }
    }
  }

  lemma {:induction false} NonEmptyAreSegments(segments: seq<string>)
    ensures forall s :: s in NonEmpty(segments) ==> s in segments && s != ""
  {
    if segments != [] {
      NonEmptyAreSegments(segments[1..]);
    }
  }

  predicate QueryFree(s: string) {
    '?' !in s && '#' !in s
  }

  lemma QueryIsCut(path: string)
    ensures QueryFree(WithoutQuery(path))
    ensures QueryFree(path) ==> WithoutQuery(path) == path
  {
  }

  // ---------------------------------------------------------------- applying it twice

  lemma TemplateBy(path: string, segment: string)
    requires segment in Segments(path) && IsParameter(segment) && QueryFree(path)
    ensures StrictPathOf(path) == path
  {
    hide Segments, IsParameter;
    QueryIsCut(path);
  }

  /** With or without a leading slash, a segment alone or followed by "/:path". */
  function Shape(slash: bool, segment: string, more: bool): string {
    (if slash then "/" else "") + segment + (if more then "/:path" else "")
  }

  lemma ShapeSegments(slash: bool, segment: string, more: bool)
    requires '/' !in segment
    ensures Segments(Shape(slash, segment, more)) ==
            (if slash then [""] else []) + [segment] + (if more then [":path"] else [])
  {
    hide Segments;
    var tail := segment + (if more then "/:path" else "");
    if more {
      assert tail == segment + "/" + ":path";
      SegmentsOfJoin(segment, ":path");
      SegmentsOfOne(":path");
    } else {
      assert tail == segment;
      SegmentsOfOne(segment);
    }
    if slash {
      assert Shape(slash, segment, more) == "" + "/" + tail;
      SegmentsOfJoin("", tail);
    } else {
      assert Shape(slash, segment, more) == tail;
    }
  }

  lemma ShapeIsKept(slash: bool, segment: string, more: bool)
    requires segment != "" && '/' !in segment && QueryFree(segment)
    requires more || IsParameter(segment) || KeptSegment(segment) == segment
    ensures StrictPathOf(Shape(slash, segment, more)) == Shape(slash, segment, more)
  {
    hide Segments, KeptSegment, StrictPathOf;
    var path := Shape(slash, segment, more);
    ShapeSegments(slash, segment, more);
    QueryIsCut(path);
    assert QueryFree(path);
    if more {
      assert ":path" in Segments(path);
      TemplateBy(path, ":path");
    } else if IsParameter(segment) {
      assert segment in Segments(path);
      TemplateBy(path, segment);
    } else {
      PlainShape(slash, segment);
    }
  }

  lemma PlainShape(slash: bool, segment: string)
    requires segment != "" && '/' !in segment && QueryFree(segment)
    requires !IsParameter(segment) && KeptSegment(segment) == segment
    ensures StrictPathOf(Shape(slash, segment, false)) == Shape(slash, segment, false)
  {
    hide Segments, KeptSegment;
    var path := Shape(slash, segment, false);
    ShapeSegments(slash, segment, false);
    assert QueryFree(path);
    QueryIsCut(path);
    var segments := Segments(path);
    assert [segment][1..] == [] && ["", segment][1..] == [segment];
    assert NonEmpty([segment]) == [segment];
    assert NonEmpty(["", segment]) == [] + NonEmpty([segment]);
    if slash {
      assert segments == ["", segment];
    } else {
      assert segments == [segment];
    }
    assert segment[0] in segment;
    if !slash {
      assert path == segment;
    }
  }

  lemma RootIsKept()
    ensures StrictPathOf("/") == "/"
  {
  }

  /** Reducing a reduced path changes nothing, its own ":id" and ":path" included. */
  lemma StrictPathTwice(path: string)
    ensures StrictPathOf(StrictPathOf(path)) == StrictPathOf(path)
  {
    hide Segments, IsParameter, WithoutQuery, KeptSegment;
    var p := WithoutQuery(path);
    QueryIsCut(path);
    QueryIsCut(p);
    if !IsTemplate(p) {
      var segments := NonEmpty(Segments(p));
      if segments == [] {
        RootIsKept();
      } else {
        NonEmptyAreSegments(Segments(p));
        var first := segments[0];
        SegmentsArePieces(p, first);
        var slash := p != "" && p[0] == '/';
        KeptIsParameterOrSame(first);
        ShapeIsKept(slash, KeptSegment(first), |segments| > 1);
        assert StrictPathOf(path) == Shape(slash, KeptSegment(first), |segments| > 1);
      }
    }
  }

  lemma KeptIsParameterOrSame(segment: string)
    requires segment != "" && '/' !in segment && QueryFree(segment)
    ensures var k := KeptSegment(segment);
            && k != "" && '/' !in k && QueryFree(k)
            && (IsParameter(k) || KeptSegment(k) == k)
  {
  }

  // ---------------------------------------------------------------- what it hides

  /** Nothing past a query or fragment mark matters. */
  lemma QueryIsHidden(path: string, mark: string, query: string)
    requires QueryFree(path) && (mark == "?" || mark == "#")
    ensures StrictPathOf(path + mark + query) == StrictPathOf(path)
  {
    var s := path + mark + query;
    assert forall j :: 0 <= j < |path| ==> s[j] == path[j] && path[j] in path;
    SpanLenIs(NotQuery, s, |path|);
    assert s[..|path|] == path;
    QueryIsCut(path);
  }

  predicate Slashes(s: string) {
    forall k :: 0 <= k < |s| ==> s[k] == '/'
  }

  lemma {:induction false} SlashesHaveNoSegments(lead: string, x: string)
    requires Slashes(lead)
    ensures NonEmpty(Segments(lead + x)) == NonEmpty(Segments(x))
    decreases |lead|
  {
    hide Segments;
    if lead == "" {
      assert lead + x == x;
    } else {
      assert lead + x == "" + "/" + (lead[1..] + x);
      SegmentsOfJoin("", lead[1..] + x);
      SlashesHaveNoSegments(lead[1..], x);
      assert ([""] + Segments(lead[1..] + x))[1..] == Segments(lead[1..] + x);
    }
  }

  /** What is left of a raw path: nothing, or whether it began with a slash, the kept form of its first
      segment, and whether there was more. */
  datatype Shown = Root | First(slash: bool, kept: string, more: bool)

  function ShownOf(path: string): Shown {
    var p := WithoutQuery(path);
    var segments := NonEmpty(Segments(p));
    if segments == [] then Root else First("/" <= p, KeptSegment(segments[0]), |segments| > 1)
  }

  predicate IsRaw(path: string) {
    !IsTemplate(WithoutQuery(path))
  }

  lemma RawIsShape(path: string)
    requires IsRaw(path)
    ensures StrictPathOf(path) ==
            match ShownOf(path) case Root => "/" case First(slash, kept, more) => Shape(slash, kept, more)
    ensures var shown := ShownOf(path); shown.First? ==> shown.kept != "" && '/' !in shown.kept
  {
    hide Segments, KeptSegment, IsTemplate, WithoutQuery;
    var p := WithoutQuery(path);
    var segments := NonEmpty(Segments(p));
    assert "/" <= p <==> p != "" && p[0] == '/';
    if segments != [] {
      NonEmptyAreSegments(Segments(p));
      SegmentsArePieces(p, segments[0]);
      KeptHasNoSlash(segments[0]);
    }
  }

  lemma KeptHasNoSlash(segment: string)
    requires segment != "" && '/' !in segment
    ensures KeptSegment(segment) != "" && '/' !in KeptSegment(segment)
  {
  }

  lemma ShapesDiffer(slash: bool, kept: string, more: bool, slash': bool, kept': string, more': bool)
    requires kept != "" && '/' !in kept && kept' != "" && '/' !in kept'
    requires Shape(slash, kept, more) == Shape(slash', kept', more')
    ensures slash == slash' && kept == kept' && more == more'
  {
    hide Segments, Shape;
    ShapeSegments(slash, kept, more);
    ShapeSegments(slash', kept', more');
    var parts := Segments(Shape(slash, kept, more));
    assert slash <==> parts[0] == "";
    assert slash' <==> parts[0] == "";
    assert kept == parts[if slash then 1 else 0] == kept';
  }

  lemma ShapeIsNotRoot(slash: bool, kept: string, more: bool)
    requires kept != ""
    requires '/' !in kept
    ensures Shape(slash, kept, more) != "/"
  {
    assert kept[0] in kept;
    if slash {
      assert |Shape(slash, kept, more)| > 1;
    } else {
      assert Shape(slash, kept, more)[0] == kept[0];
    }
  }

  /** Of any two raw paths, two leave the same behind if and only if they agree on the leading slash, on
      what is kept of the first segment, and on whether there was more: nothing else of a path shows. */
  lemma RawPathShowsOnly(a: string, b: string)
    requires IsRaw(a) && IsRaw(b)
    ensures StrictPathOf(a) == StrictPathOf(b) <==> ShownOf(a) == ShownOf(b)
  {
    hide IsRaw, ShownOf, StrictPathOf, Shape;
    RawIsShape(a);
    RawIsShape(b);
    var x, y := ShownOf(a), ShownOf(b);
    if x.First? {
      ShapeIsNotRoot(x.slash, x.kept, x.more);
    }
    if y.First? {
      ShapeIsNotRoot(y.slash, y.kept, y.more);
    }
    if x.First? && y.First? && StrictPathOf(a) == StrictPathOf(b) {
      ShapesDiffer(x.slash, x.kept, x.more, y.slash, y.kept, y.more);
    }
  }

  /** What can follow a path's first segment: the end, a slash or a query. */
  predicate IsTail(tail: string) {
    tail == "" || tail[0] == '/' || !NotQuery(tail[0])
  }

  predicate HasMore(tail: string) {
    NonEmpty(Segments(WithoutQuery(tail))) != []
  }

  lemma WithoutQueryOfJoin(x: string, tail: string)
    requires QueryFree(x)
    ensures WithoutQuery(x + tail) == x + WithoutQuery(tail)
  {
    var s, n := x + tail, |x| + SpanLen(NotQuery, tail);
    assert forall j :: 0 <= j < |x| ==> s[j] == x[j] && x[j] in x;
    assert forall j :: |x| <= j < |s| ==> s[j] == tail[j - |x|];
    SpanLenIs(NotQuery, s, n);
  }

  lemma TailSegments(first: string, tail: string)
    requires first != "" && '/' !in first && (tail == "" || tail[0] == '/')
    ensures NonEmpty(Segments(first + tail)) == [first] + NonEmpty(Segments(tail))
  {
    hide Segments, NonEmpty;
    if tail == "" {
      assert first + tail == first && [first] + [] == [first] && [""] + [] == [""];
      SegmentsOfOne(first);
      SegmentsOfOne("");
      NonEmptyFrom(first, []);
      NonEmptyFrom("", []);
    } else {
      var rest := tail[1..];
      assert first + tail == first + "/" + rest && tail == "" + "/" + rest;
      SegmentsOfJoin(first, rest);
      SegmentsOfJoin("", rest);
      NonEmptyFrom(first, Segments(rest));
      NonEmptyFrom("", Segments(rest));
    }
  }

  lemma NonEmptyFrom(segment: string, rest: seq<string>)
    ensures NonEmpty([segment] + rest) == (if segment == "" then [] else [segment]) + NonEmpty(rest)
  {
    assert ([segment] + rest)[1..] == rest;
  }

  /** The segments of any number of slashes, a first segment and what follows it. */
  lemma RawSegments(lead: string, first: string, tail: string)
    requires Slashes(lead) && first != "" && '/' !in first && (tail == "" || tail[0] == '/')
    ensures NonEmpty(Segments(lead + first + tail)) == [first] + NonEmpty(Segments(tail))
    ensures "/" <= lead + first + tail <==> lead != ""
  {
    hide Segments, NonEmpty;
    var u := first + tail;
    assert lead + first + tail == lead + u;
    SlashesHaveNoSegments(lead, u);
    TailSegments(first, tail);
    assert first[0] in first;
    assert (lead + u)[0] == if lead == "" then first[0] else lead[0];
  }

  lemma ShownOfRaw(lead: string, first: string, tail: string)
    requires Slashes(lead) && first != "" && '/' !in first && QueryFree(first) && IsTail(tail)
    ensures ShownOf(lead + first + tail) == First(lead != "", KeptSegment(first), HasMore(tail))
  {
    hide Segments, KeptSegment, NonEmpty;
    var x := lead + first;
    assert QueryFree(x);
    WithoutQueryOfJoin(x, tail);
    RawSegments(lead, first, WithoutQuery(tail));
  }

  /** So whatever stands after the first segment of a raw path, how many slashes before it, and whether
      a slash or a query follows it: only whether there was more shows. */
  lemma RestOfPathIsHidden(lead: string, lead': string, first: string, a: string, b: string)
    requires Slashes(lead) && Slashes(lead') && (lead == "") == (lead' == "")
    requires first != "" && '/' !in first && QueryFree(first) && IsTail(a) && IsTail(b)
    requires IsRaw(lead + first + a) && IsRaw(lead' + first + b)
    requires HasMore(a) == HasMore(b)
    ensures StrictPathOf(lead + first + a) == StrictPathOf(lead' + first + b)
  {
    hide IsRaw, ShownOf, StrictPathOf, KeptSegment, HasMore;
    ShownOfRaw(lead, first, a);
    ShownOfRaw(lead', first, b);
    RawPathShowsOnly(lead + first + a, lead' + first + b);
  }

  // ---------------------------------------------------------------- what it shows

  lemma {:induction false} NoSegmentsIff(x: string)
    ensures NonEmpty(Segments(x)) == [] <==> Slashes(x)
    decreases |x|
  {
    hide Segments;
    if x != "" && x[0] == '/' {
      assert x == "" + "/" + x[1..];
      SegmentsOfJoin("", x[1..]);
      NonEmptyFrom("", Segments(x[1..]));
      NoSegmentsIff(x[1..]);
    } else if x == "" {
      SegmentsOfOne("");
      NonEmptyFrom("", []);
      assert [""] + [] == [""];
    } else {
      FirstSegment(x);
    }
  }

  lemma FirstSegment(x: string)
    requires x != "" && x[0] != '/'
    ensures NonEmpty(Segments(x)) != []
  {
    var k := SpanLen(NotSlash, x);
    assert k > 0;
    if k < |x| {
      NonEmptyFrom(x[..k], Segments(x[k + 1..]));
    }
  }

  /** There is more after the first segment when anything but slashes comes before the query. */
  lemma HasMoreIff(tail: string)
    ensures HasMore(tail) <==>
            exists k :: 0 <= k < |tail| && tail[k] != '/'
                        && forall j :: 0 <= j <= k ==> tail[j] != '?' && tail[j] != '#'
  {
    var n := SpanLen(NotQuery, tail);
    var p := WithoutQuery(tail);
    NoSegmentsIff(p);
    hide Segments, NonEmpty;
    if k :| 0 <= k < |p| && p[k] != '/' {
      assert tail[k] == p[k];
    }
    if k :| 0 <= k < |tail| && tail[k] != '/' && forall j :: 0 <= j <= k ==> tail[j] != '?' && tail[j] != '#' {
      assert k < n && p[k] == tail[k];
    }
  }

  /** What becomes of a raw path: one leading slash if it had any, its first segment, withheld when that
      holds a digit or is longer than 40 characters, and whether there was more. */
  lemma RawPathBecomes(lead: string, first: string, tail: string)
    requires Slashes(lead) && first != "" && '/' !in first && QueryFree(first) && IsTail(tail)
    requires IsRaw(lead + first + tail)
    ensures StrictPathOf(lead + first + tail) ==
            (if lead == "" then "" else "/")
            + (if (exists k :: 0 <= k < |first| && '0' <= first[k] <= '9') || |first| > 40 then ":id" else first)
            + (if HasMore(tail) then "/:path" else "")
  {
    hide IsRaw, StrictPathOf, ShownOf, HasMore;
    RawIsShape(lead + first + tail);
    ShownOfRaw(lead, first, tail);
    assert HasDigit(first) <==> exists k :: 0 <= k < |first| && '0' <= first[k] <= '9';
  }

  /** Nothing but slashes before the query is the root. */
  lemma NoSegmentsBecomeRoot(lead: string, query: string)
    requires Slashes(lead) && (query == "" || query[0] == '?' || query[0] == '#')
    ensures StrictPathOf(lead + query) == "/"
  {
    hide Segments, NonEmpty;
    WithoutQueryOfJoin(lead, query);
    assert WithoutQuery(query) == "" && lead + "" == lead;
    NoSegmentsIff(lead);
    AllEmpty(Segments(lead));
  }

  lemma {:induction false} AllEmpty(segments: seq<string>)
    ensures NonEmpty(segments) == [] ==> forall segment :: segment in segments ==> segment == ""
  {
    if segments != [] {
      AllEmpty(segments[1..]);
      assert segments == [segments[0]] + segments[1..];
      NonEmptyFrom(segments[0], segments[1..]);
      assert segments[0] != "" ==> NonEmpty(segments) != [];
    }
  }

  /** A raw path's result has no digit and at most 47 characters. */
  lemma RawResultIsShort(path: string)
    requires IsRaw(path)
    ensures forall k :: 0 <= k < |StrictPathOf(path)| ==> !('0' <= StrictPathOf(path)[k] <= '9')
    ensures |StrictPathOf(path)| <= 47
  {
    hide IsRaw, StrictPathOf, Segments, NonEmpty, WithoutQuery;
    RawIsShape(path);
    var shown := ShownOf(path);
    if shown.First? {
      KeptIsShort(NonEmpty(Segments(WithoutQuery(path)))[0]);
    }
  }

  lemma KeptIsShort(segment: string)
    ensures var kept := KeptSegment(segment); |kept| <= 40 && forall k :: 0 <= k < |kept| ==> !('0' <= kept[k] <= '9')
  {
  }

  // ---------------------------------------------------------------- route templates

  /** The text between an opening and a closing byte, at least one character. */
  predicate Between(segment: string, open: string, close: string) {
    |segment| > 2 && open <= segment && segment[|segment| - 1..] == close
  }

  /** A route's parameters are written with a colon or a star before them, or in braces, angle or square
      brackets; with nothing after the colon or between the brackets it is none. */
  lemma IsParameterIff(segment: string)
    ensures IsParameter(segment) <==>
            || (":" < segment)
            || ("*" <= segment)
            || Between(segment, "{", "}") || Between(segment, "<", ">") || Between(segment, "[", "]")
  {
    hide Between, Wrapped;
    WrappedIff(segment, '{', '}');
    WrappedIff(segment, '<', '>');
    WrappedIff(segment, '[', ']');
  }

  lemma WrappedIff(segment: string, open: char, close: char)
    ensures Wrapped(segment, open, close) <==> Between(segment, [open], [close])
  {
    if |segment| > 2 {
      assert segment[|segment| - 1..] == [segment[|segment| - 1]];
    }
  }

  /** A path with such a segment stays as it is, but for its query. */
  lemma TemplateIsKept(path: string, segment: string, query: string)
    requires QueryFree(path) && segment in Segments(path) && IsParameter(segment)
    requires query == "" || query[0] == '?' || query[0] == '#'
    ensures StrictPathOf(path + query) == path
  {
    hide Segments, IsParameter;
    WithoutQueryOfJoin(path, query);
    assert WithoutQuery(query) == "" && path + "" == path;
  }
}
