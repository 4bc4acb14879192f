/** The `text/uri-list` payload of drag and drop: paths printed as `file`
    URIs, one per line, and read back from such a list. Paths are printed
    in their POSIX form without percent-encoding. */
module UriList {
  import opened FsModel

  /** The POSIX text of a path: "/" for the root, otherwise a "/" before
      each segment. */
  function Render(p: Path): string
  {
    if p == [] then "/" else RenderSegments(p)
  }

  function RenderSegments(p: Path): string
  {
    if p == [] then "" else "/" + p[0] + RenderSegments(p[1..])
  }

  lemma RenderCons(x: string, p: Path)
    ensures RenderSegments([x] + p) == "/" + x + RenderSegments(p)
  {
    assert ([x] + p)[1..] == p;
  }

  lemma {:induction false} RenderAppend(p: Path, q: Path)
    ensures RenderSegments(p + q) == RenderSegments(p) + RenderSegments(q)
  {
    if p == [] {
      assert p + q == q;
    } else {
      RenderAppend(p[1..], q);
      assert (p + q)[0] == p[0] && (p + q)[1..] == p[1..] + q;
    }
  }

  /** The index of the first character of `s` in `stops`, or `|s|`. */
  function IndexOfAny(s: string, stops: set<char>): (i: nat)
    ensures i <= |s| && (i < |s| ==> s[i] in stops)
    ensures forall j :: 0 <= j < i ==> s[j] !in stops
  {
    if s == [] || s[0] in stops then 0 else 1 + IndexOfAny(s[1..], stops)
  }

  /** The segments of a path text: the pieces between '/', empty ones dropped. */
  function ParsePath(s: string): (r: Path)
    ensures forall i :: 0 <= i < |r| ==> r[i] != "" && '/' !in r[i]
    decreases |s|
  {
    if s == [] then []
    else if s[0] == '/' then ParsePath(s[1..])
    else
      var k := IndexOfAny(s, {'/'});
      [s[..k]] + ParsePath(s[k..])
  }

  /** A segment that prints and parses back unchanged: not empty, and free
      of the separators of paths, URIs and lines. */
  predicate PlainSegment(seg: string)
  {
    seg != "" && NoneOf(seg, {'/', '?', '#', '\n'})
  }

  predicate PlainPath(p: Path)
  {
    forall i :: 0 <= i < |p| ==> PlainSegment(p[i])
  }

  predicate NoneOf(s: string, cs: set<char>)
  {
    forall i :: 0 <= i < |s| ==> s[i] !in cs
  }

  /** Searching past a prefix that holds no stop character. */
  lemma {:induction false} IndexOfAnyAppend(a: string, b: string, stops: set<char>)
    requires NoneOf(a, stops)
    ensures IndexOfAny(a + b, stops) == |a| + IndexOfAny(b, stops)
  {
    if a == [] {
      assert a + b == b;
    } else {
      assert (a + b)[0] == a[0] && (a + b)[1..] == a[1..] + b;
      assert NoneOf(a[1..], stops) by {
        forall i | 0 <= i < |a[1..]| ensures a[1..][i] !in stops {
          assert a[1..][i] == a[i + 1];
        }
      }
      IndexOfAnyAppend(a[1..], b, stops);
    }
  }

  lemma {:induction false} RenderSegmentsPlain(p: Path)
    requires PlainPath(p)
    ensures NoneOf(RenderSegments(p), {'?', '#', '\n'})
    ensures p != [] ==> RenderSegments(p)[0] == '/'
  {
    if p != [] {
      RenderSegmentsPlain(p[1..]);
      var tail := RenderSegments(p[1..]);
      var r := "/" + p[0] + tail;
      forall i | 0 <= i < |r| ensures r[i] !in {'?', '#', '\n'} {
        if 1 <= i < 1 + |p[0]| {
          assert r[i] == p[0][i - 1];
        } else if i >= 1 + |p[0]| {
          assert r[i] == tail[i - 1 - |p[0]|];
        }
      }
    }
  }

  /** Parsing a text that starts with one plain segment after a '/'. */
  lemma ParseFirstSegment(seg: string, tail: string)
    requires PlainSegment(seg) && (tail == "" || tail[0] == '/')
    ensures ParsePath("/" + seg + tail) == [seg] + ParsePath(tail)
  {
    var s := seg + tail;
    assert "/" + seg + tail == "/" + s;
    assert ("/" + s)[1..] == s;
    assert ParsePath("/" + s) == ParsePath(s);
    assert s[0] == seg[0];
    IndexOfAnyAppend(seg, tail, {'/'});
    assert IndexOfAny(tail, {'/'}) == 0;
    assert s[..|seg|] == seg && s[|seg|..] == tail;
  }

  lemma {:induction false} RenderedSegmentsParse(p: Path)
    requires PlainPath(p)
    ensures ParsePath(RenderSegments(p)) == p
  {
    if p != [] {
      RenderedSegmentsParse(p[1..]);
      RenderSegmentsPlain(p[1..]);
      ParseFirstSegment(p[0], RenderSegments(p[1..]));
      assert p == [p[0]] + p[1..];
    }
  }

  /** Reading a plain path's text gives the path back. */
  lemma RenderedPathParses(p: Path)
    requires PlainPath(p)
    ensures ParsePath(Render(p)) == p
    ensures NoneOf(Render(p), {'?', '#', '\n'}) && Render(p)[0] == '/'
  {
    RenderedSegmentsParse(p);
    RenderSegmentsPlain(p);
  }

  /** A parsed URI: its scheme and the path it names. */
  datatype Uri = Uri(scheme: string, path: Path)

  /** `Uri.file(p).toString()`. */
  function FileUri(p: Path): string
  {
    "file://" + Render(p)
  }

  /** `Uri.parse(line)` read through `fsPath`: the scheme runs up to the
      first ':' when no '/', '?' or '#' comes first (a line without one is
      taken as a `file` URI), an authority after "//" is skipped, and the
      path ends at the query or fragment. */
  function ParseUri(line: string): Uri
  {
    var i := IndexOfAny(line, {':', '/', '?', '#'});
    var hasScheme := 0 < i < |line| && line[i] == ':';
    var scheme := if hasScheme then line[..i] else "file";
    var rest := if hasScheme then line[i + 1..] else line;
    var afterAuthority :=
      if |rest| >= 2 && rest[..2] == "//" then rest[2..][IndexOfAny(rest[2..], {'/', '?', '#'})..] else rest;
    Uri(scheme, ParsePath(afterAuthority[..IndexOfAny(afterAuthority, {'?', '#'})]))
  }

  /** Printing a plain path as a `file` URI and parsing it back gives the
      path. */
  lemma FileUriParses(p: Path)
    requires PlainPath(p)
    ensures ParseUri(FileUri(p)) == Uri("file", p)
  {
    var text := Render(p);
    RenderedPathParses(p);
    SchemeOfFileUri(text);
    PathOfFileUri(text);
    var line := FileUri(p);
    assert line[..4] == "file";
    assert line[5..][..2] == "//" && line[5..][2..] == text;
    assert text[0..] == text && text[..|text|] == text;
  }

  /** In a printed `file` URI the scheme ends at the first ':'. */
  lemma SchemeOfFileUri(text: string)
    ensures IndexOfAny("file://" + text, {':', '/', '?', '#'}) == 4
    ensures ("file://" + text)[4] == ':'
  {
    assert "file://" + text == "file" + ("://" + text);
    IndexOfAnyAppend("file", "://" + text, {':', '/', '?', '#'});
  }

  /** The path text of a printed `file` URI starts its path at once and
      has no query or fragment. */
  lemma PathOfFileUri(text: string)
    requires |text| > 0 && text[0] == '/' && NoneOf(text, {'?', '#', '\n'})
    ensures IndexOfAny(text, {'/', '?', '#'}) == 0
    ensures IndexOfAny(text, {'?', '#'}) == |text|
  {
    IndexOfAnyAppend(text, "", {'?', '#'});
    assert text + "" == text;
  }

  /** `text.split(/\r?\n/)`: the pieces between line feeds, each without
      the one carriage return that may stand before its line feed. */
  function SplitLines(text: string): (r: seq<string>)
    ensures |r| > 0
    decreases |text|
  {
    var k := IndexOfAny(text, {'\n'});
    if k == |text| then [text] else [DropCr(text[..k])] + SplitLines(text[k + 1..])
  }

  function DropCr(s: string): string
  {
    if |s| > 0 && s[|s| - 1] == '\r' then s[..|s| - 1] else s
  }

  /** `lines.join('\r\n')`. */
  function JoinCrLf(lines: seq<string>): string
  {
    if lines == [] then ""
    else if |lines| == 1 then lines[0]
    else lines[0] + "\r\n" + JoinCrLf(lines[1..])
  }

  predicate NoLineFeed(s: string)
  {
    forall i :: 0 <= i < |s| ==> s[i] != '\n'
  }

  /** Joining lines that hold no line feed with CR LF and splitting the
      result again gives the lines back. */
  lemma {:induction false} SplitJoin(lines: seq<string>)
    requires |lines| > 0 && forall i :: 0 <= i < |lines| ==> NoLineFeed(lines[i])
    ensures SplitLines(JoinCrLf(lines)) == lines
  {
    if |lines| == 1 {
      SplitOneLine(lines[0]);
    } else {
      SplitJoin(lines[1..]);
      SplitFirstLine(lines[0], JoinCrLf(lines[1..]));
      assert lines == [lines[0]] + lines[1..];
    }
  }

  /** A text without a line feed is one line. */
  lemma SplitOneLine(l: string)
    requires NoLineFeed(l)
    ensures SplitLines(l) == [l]
  {
    assert NoneOf(l, {'\n'});
    IndexOfAnyAppend(l, "", {'\n'});
    assert l + "" == l;
  }

  /** Splitting at the first CR LF gives the line before it, then the
      lines of the rest. */
  lemma SplitFirstLine(l: string, rest: string)
    requires NoLineFeed(l)
    ensures SplitLines(l + "\r\n" + rest) == [l] + SplitLines(rest)
  {
    var text := l + "\r\n" + rest;
    assert text == l + ("\r\n" + rest);
    assert NoneOf(l, {'\n'});
    IndexOfAnyAppend(l, "\r\n" + rest, {'\n'});
    assert IndexOfAny("\r\n" + rest, {'\n'}) == 1;
    assert text[..|l| + 1] == l + "\r";
    assert DropCr(l + "\r") == l;
    assert text[|l| + 2..] == rest;
  }

  /** Characters `String.prototype.trim` removes. */
  predicate IsJsSpace(c: char)
  {
    c == ' ' || c == '\t' || c == '\n' || c == '\U{000B}' || c == '\U{000C}' || c == '\r'
    || c == '\U{00A0}' || c == '\U{1680}' || ('\U{2000}' <= c <= '\U{200A}')
    || c == '\U{2028}' || c == '\U{2029}' || c == '\U{202F}' || c == '\U{205F}'
    || c == '\U{3000}' || c == '\U{FEFF}'
  }

  /** A line whose `trim()` is empty. */
  predicate Blank(line: string)
  {
    forall i :: 0 <= i < |line| ==> IsJsSpace(line[i])
  }

  /** The paths named by the non-blank lines that parse as `file` URIs, in
      order; every other line is skipped. */
  function FileSources(lines: seq<string>): (r: seq<Path>)
    ensures |r| <= |lines|
    ensures (forall i :: 0 <= i < |lines| ==> Blank(lines[i]) || ParseUri(lines[i]).scheme != "file") ==> r == []
  {
    if lines == [] then []
    else
      var rest := FileSources(lines[1..]);
      assert forall i :: 1 <= i < |lines| ==> lines[1..][i - 1] == lines[i];
      if Blank(lines[0]) || ParseUri(lines[0]).scheme != "file" then rest
      else [ParseUri(lines[0]).path] + rest
  }

  /** The sources a drop reads from a `text/uri-list` payload. */
  function UriListSources(text: string): seq<Path>
  {
    FileSources(SplitLines(text))
  }

  /** The `text/uri-list` payload a drag writes for `paths`. */
  function DragUriList(paths: seq<Path>): string
  {
    JoinCrLf(FileUriLines(paths))
  }

  /** One `file` URI line per path, in order. */
  function FileUriLines(paths: seq<Path>): (r: seq<string>)
    ensures |r| == |paths|
  {
    if paths == [] then [] else [FileUri(paths[0])] + FileUriLines(paths[1..])
  }

  /** A printed `file` URI starts with 'f' and, for a plain path, holds no
      line feed. */
  lemma FileUriOneLine(p: Path)
    requires PlainPath(p)
    ensures FileUri(p)[0] == 'f' && NoLineFeed(FileUri(p))
  {
    RenderedPathParses(p);
    var text := Render(p);
    forall j | 0 <= j < |FileUri(p)| ensures FileUri(p)[j] != '\n' {
      if j >= 7 {
        assert FileUri(p)[j] == text[j - 7];
      }
    }
  }

  /** A non-blank `file` line contributes its path ahead of the rest. */
  lemma FileSourcesCons(line: string, rest: seq<string>)
    requires !Blank(line) && ParseUri(line).scheme == "file"
    ensures FileSources([line] + rest) == [ParseUri(line).path] + FileSources(rest)
  {
    assert ([line] + rest)[0] == line && ([line] + rest)[1..] == rest;
  }

  /** A blank line, or one that is not a `file` URI, is dropped. */
  lemma FileSourcesSkip(line: string, rest: seq<string>)
    requires Blank(line) || ParseUri(line).scheme != "file"
    ensures FileSources([line] + rest) == FileSources(rest)
  {
    assert ([line] + rest)[0] == line && ([line] + rest)[1..] == rest;
  }

  /** Lines are read one by one: the paths of a payload are those of its
      first lines followed by those of the rest, in order. */
  lemma {:induction false} FileSourcesAppend(a: seq<string>, b: seq<string>)
    ensures FileSources(a + b) == FileSources(a) + FileSources(b)
  {
    if a == [] {
      assert a + b == b;
    } else {
      FileSourcesAppend(a[1..], b);
      FileSourcesAppendStep(a[0], a[1..], b);
      assert a == [a[0]] + a[1..];
    }
  }

  lemma FileSourcesAppendStep(x: string, t: seq<string>, b: seq<string>)
    requires FileSources(t + b) == FileSources(t) + FileSources(b)
    ensures FileSources([x] + t + b) == FileSources([x] + t) + FileSources(b)
  {
    ConsAssoc(x, t, b);
    FileSourcesStep(x, t + b);
    FileSourcesStep(x, t);
    SeqAssoc(FileSourcesHead(x), FileSources(t), FileSources(b));
  }

  lemma ConsAssoc(x: string, t: seq<string>, b: seq<string>)
    ensures [x] + t + b == [x] + (t + b)
  {
  }

  lemma SeqAssoc(h: seq<Path>, p: seq<Path>, q: seq<Path>)
    ensures h + (p + q) == (h + p) + q
  {
  }

  /** The path one line contributes: its parsed path when it is a `file`
      URI, none otherwise. */
  function FileSourcesHead(line: string): seq<Path>
  {
    if Blank(line) || ParseUri(line).scheme != "file" then [] else [ParseUri(line).path]
  }

  lemma FileSourcesStep(line: string, rest: seq<string>)
    ensures FileSources([line] + rest) == FileSourcesHead(line) + FileSources(rest)
  {
    if Blank(line) || ParseUri(line).scheme != "file" {
      FileSourcesSkip(line, rest);
      assert [] + FileSources(rest) == FileSources(rest);
    } else {
      FileSourcesCons(line, rest);
    }
  }


  lemma {:induction false} FileUrisRead(paths: seq<Path>)
    requires forall i :: 0 <= i < |paths| ==> PlainPath(paths[i])
    ensures FileSources(FileUriLines(paths)) == paths
  {
    if paths != [] {
      var first := FileUri(paths[0]);
      FileUrisRead(paths[1..]);
      FileUriParses(paths[0]);
      FileUriOneLine(paths[0]);
      assert !Blank(first) by {
        assert !IsJsSpace(first[0]);
      }
      FileSourcesCons(first, FileUriLines(paths[1..]));
      assert paths == [paths[0]] + paths[1..];
    }
  }

  /** A drop reads back exactly the paths a drag wrote to the uri-list, in
      order. */
  lemma DragDropRoundTrip(paths: seq<Path>)
    requires forall i :: 0 <= i < |paths| ==> PlainPath(paths[i])
    ensures UriListSources(DragUriList(paths)) == paths
  {
    FileUrisRead(paths);
    if paths == [] {
      assert SplitLines("") == [""];
    } else {
      FileUrisSingleLines(paths);
      SplitJoin(FileUriLines(paths));
    }
  }

  lemma {:induction false} FileUrisSingleLines(paths: seq<Path>)
    requires forall i :: 0 <= i < |paths| ==> PlainPath(paths[i])
    ensures forall i :: 0 <= i < |paths| ==> NoLineFeed(FileUriLines(paths)[i])
  {
    if paths != [] {
      FileUrisSingleLines(paths[1..]);
      FileUriOneLine(paths[0]);
      forall i | 0 <= i < |paths| ensures NoLineFeed(FileUriLines(paths)[i]) {
        if i > 0 {
          assert FileUriLines(paths)[i] == FileUriLines(paths[1..])[i - 1];
        }
      }
    }
  }
}
