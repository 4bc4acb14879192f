/** The source text a new Java file starts with: a `package` line derived
    from the folder's position under `src/main/java`, an optional
    annotation line, and an empty type declaration. */
module JavaTemplate {
  import opened FsModel

  /** Both separators count in a folder path. */
  predicate IsSep(c: char)
  {
    c == '/' || c == '\\'
  }

  /** The characters JavaScript's `.` does not match. */
  predicate IsLineTerminator(c: char)
  {
    c == '\n' || c == '\r' || c == '\U{2028}' || c == '\U{2029}'
  }

  /** `src<sep>main<sep>java<sep>`, fourteen characters, starts at `i`. */
  predicate MarkerAt(s: string, i: nat)
  {
    i + 14 <= |s|
    && s[i..i + 3] == "src" && IsSep(s[i + 3])
    && s[i + 4..i + 8] == "main" && IsSep(s[i + 8])
    && s[i + 9..i + 13] == "java" && IsSep(s[i + 13])
  }

  /** The leftmost marker at or after `from`. */
  function FindMarker(s: string, from: nat): (r: Option<nat>)
    ensures r.Some? ==>
      (from <= r.value && MarkerAt(s, r.value) && forall j :: from <= j < r.value ==> !MarkerAt(s, j))
    ensures r.None? ==> forall j :: from <= j ==> !MarkerAt(s, j)
    decreases |s| - from
  {
    if from + 14 > |s| then None
    else if MarkerAt(s, from) then Some(from)
    else FindMarker(s, from + 1)
  }

  /** The length of the longest prefix of `s` without a line terminator. */
  function LineLength(s: string): (k: nat)
    ensures k <= |s| && (k < |s| ==> IsLineTerminator(s[k]))
    ensures forall j :: 0 <= j < k ==> !IsLineTerminator(s[j])
  {
    if s == [] || IsLineTerminator(s[0]) then 0 else 1 + LineLength(s[1..])
  }

  /** What `(.*)` captures after the leftmost marker: the rest of that line. */
  function PackageSuffix(folder: string): (r: Option<string>)
    ensures r.None? <==> forall j :: !MarkerAt(folder, j)
    ensures r.Some? ==> forall j :: 0 <= j < |r.value| ==> !IsLineTerminator(r.value[j])
  {
    match FindMarker(folder, 0)
    case None => None
    case Some(i) =>
      var rest := folder[i + 14..];
      Some(rest[..LineLength(rest)])
  }

  /** Every separator replaced by '.'. */
  function Dotted(s: string): (r: string)
    ensures |r| == |s|
    ensures forall k :: 0 <= k < |s| ==> r[k] == (if IsSep(s[k]) then '.' else s[k])
  {
    if s == [] then [] else [if IsSep(s[0]) then '.' else s[0]] + Dotted(s[1..])
  }

  /** The package a file created in `folder` declares; "" for none. */
  function PackageName(folder: string): string
  {
    match PackageSuffix(folder)
    case None => ""
    case Some(suffix) => Dotted(suffix)
  }

  /** `interface` for 'Interface', `enum` for 'Enum', `class` for every
      other kind, an empty one included. */
  function Keyword(kind: string): (kw: string)
    ensures kw == "interface" <==> kind == "Interface"
    ensures kw == "enum" <==> kind == "Enum"
    ensures kw == "class" <==> kind != "Interface" && kind != "Enum"
  {
    if kind == "Interface" then "interface" else if kind == "Enum" then "enum" else "class"
  }

  function PackageLine(pkg: string): string
  {
    if pkg == "" then "" else "package " + pkg + ";\n\n"
  }

  function AnnotationLine(annotation: string): string
  {
    if annotation == "" then "" else annotation + "\n"
  }

  function Declaration(kind: string, name: string): string
  {
    "public " + Keyword(kind) + " " + name + " {\n\n}"
  }

  /** The text inserted at the start of a new file named `name` in `folder`. */
  function JavaSource(folder: string, kind: string, annotation: string, name: string): string
  {
    PackageLine(PackageName(folder)) + AnnotationLine(annotation) + Declaration(kind, name)
  }

  /** The text ends with the type declaration. */
  lemma JavaSourceEndsWithDeclaration(folder: string, kind: string, annotation: string, name: string)
    ensures var src := JavaSource(folder, kind, annotation, name);
      var decl := Declaration(kind, name);
      |src| >= |decl| && src[|src| - |decl|..] == decl
  {
    var head := PackageLine(PackageName(folder)) + AnnotationLine(annotation);
    var src := head + Declaration(kind, name);
    assert src[|head|..] == Declaration(kind, name);
  }

  /** Under a `src/main/java` marker with something after it on its line,
      the text opens with a package line naming that rest, separators
      turned into dots. */
  lemma JavaSourceWithPackage(folder: string, kind: string, annotation: string, name: string)
    requires PackageSuffix(folder).Some? && PackageSuffix(folder).value != ""
    ensures var src := JavaSource(folder, kind, annotation, name);
      var line := "package " + Dotted(PackageSuffix(folder).value) + ";\n\n";
      |src| >= |line| && src[..|line|] == line
  {
    var pkg := Dotted(PackageSuffix(folder).value);
    assert PackageName(folder) == pkg && |pkg| > 0;
    var line := PackageLine(pkg);
    assert line == "package " + pkg + ";\n\n";
    var src := line + (AnnotationLine(annotation) + Declaration(kind, name));
    assert JavaSource(folder, kind, annotation, name) == src;
    assert src[..|line|] == line;
  }

  /** Without a marker, or with nothing after it, no package line is
      written. */
  lemma JavaSourceWithoutPackage(folder: string, kind: string, annotation: string, name: string)
    requires PackageSuffix(folder).None? || PackageSuffix(folder).value == ""
    ensures JavaSource(folder, kind, annotation, name) == AnnotationLine(annotation) + Declaration(kind, name)
  {
    assert PackageName(folder) == "";
  }

  /** A package name never contains a separator or a line break: every
      path level became one dotted component. */
  lemma PackageNameClean(folder: string)
    ensures forall k :: 0 <= k < |PackageName(folder)| ==>
      !IsSep(PackageName(folder)[k]) && !IsLineTerminator(PackageName(folder)[k])
  {
  }

  /** A marker with none before it at or after `from` is the one found. */
  lemma FindLeftmost(s: string, from: nat, i: nat)
    requires from <= i && MarkerAt(s, i)
    requires forall j :: from <= j < i ==> !MarkerAt(s, j)
    ensures FindMarker(s, from) == Some(i)
  {
  }

  /** What the pattern captures is the rest of the line after the leftmost
      marker. */
  lemma PackageSuffixLeftmost(folder: string, i: nat)
    requires MarkerAt(folder, i) && forall j :: 0 <= j < i ==> !MarkerAt(folder, j)
    ensures var rest := folder[i + 14..];
      PackageSuffix(folder) == Some(rest[..LineLength(rest)])
  {
    FindLeftmost(folder, 0, i);
  }

  /** A folder below a source root declares the package spelled by the
      rest of its path, separators turned into dots, when no marker starts
      earlier in the path. */
  lemma PackageUnderSourceRoot(pre: string, post: string)
    requires forall j :: 0 <= j < |pre| ==> !MarkerAt(pre + "src/main/java/" + post, j)
    requires forall j :: 0 <= j < |post| ==> !IsLineTerminator(post[j])
    ensures PackageName(pre + "src/main/java/" + post) == Dotted(post)
  {
    SuffixUnderSourceRoot(pre, post);
  }

  /** What the pattern captures there is the whole rest of the path. */
  lemma SuffixUnderSourceRoot(pre: string, post: string)
    requires forall j :: 0 <= j < |pre| ==> !MarkerAt(pre + "src/main/java/" + post, j)
    requires forall j :: 0 <= j < |post| ==> !IsLineTerminator(post[j])
    ensures PackageSuffix(pre + "src/main/java/" + post) == Some(post)
  {
    var s := pre + "src/main/java/" + post;
    MarkerAfter(pre, post);
    PackageSuffixLeftmost(s, |pre|);
    assert s[|pre| + 14..] == post;
    WholeLine(post);
  }

  /** The marker spelled out after `pre` is a marker. */
  lemma MarkerAfter(pre: string, post: string)
    ensures MarkerAt(pre + "src/main/java/" + post, |pre|)
  {
    var s := pre + "src/main/java/" + post;
    var i := |pre|;
    assert s[i..i + 3] == "src" && s[i + 4..i + 8] == "main" && s[i + 9..i + 13] == "java";
  }

  /** A prefix without the letter 's' holds no marker. */
  lemma NoMarkerWithoutS(pre: string, post: string)
    requires forall j :: 0 <= j < |pre| ==> pre[j] != 's'
    ensures forall j :: 0 <= j < |pre| ==> !MarkerAt(pre + "src/main/java/" + post, j)
  {
    var s := pre + "src/main/java/" + post;
    forall j | 0 <= j < |pre| ensures !MarkerAt(s, j) {
      if j + 14 <= |s| {
        assert s[j..j + 3][0] == pre[j];
      }
    }
  }

  /** A text without line terminators is one whole line. */
  lemma WholeLine(s: string)
    requires forall j :: 0 <= j < |s| ==> !IsLineTerminator(s[j])
    ensures LineLength(s) == |s| && s[..LineLength(s)] == s
  {
  }

  // A worked example: a class in the folder `/work/src/main/java/com/acme`.

  lemma AcmePackage()
    ensures PackageName("/work/" + "src/main/java/" + "com/acme") == "com.acme"
  {
    AcmeParts();
    NoMarkerWithoutS("/work/", "com/acme");
    PackageUnderSourceRoot("/work/", "com/acme");
    AcmeDotted();
  }

  lemma AcmeParts()
    ensures forall j :: 0 <= j < |"/work/"| ==> "/work/"[j] != 's'
    ensures forall j :: 0 <= j < |"com/acme"| ==> !IsLineTerminator("com/acme"[j])
  {
  }

  lemma AcmeDotted()
    ensures Dotted("com/acme") == "com.acme"
  {
    var r := Dotted("com/acme");
    assert |r| == 8;
    assert r[3] == '.';
    assert r == "com.acme";
  }

  lemma AcmeClassParts()
    ensures JavaSource("/work/" + "src/main/java/" + "com/acme", "Class", "", "Order")
      == PackageLine("com.acme") + Declaration("Class", "Order")
  {
    AcmePackage();
  }

  lemma AcmeClassText()
    ensures PackageLine("com.acme") + Declaration("Class", "Order") == "package com.acme;\n\npublic class Order {\n\n}"
  {
    AcmePackageLine();
    OrderDeclaration();
    AcmeClassJoined();
  }

  lemma AcmePackageLine()
    ensures PackageLine("com.acme") == "package com.acme;\n\n"
  {
    assert "package " + "com.acme" + ";\n\n" == "package com.acme;\n\n";
  }

  lemma OrderDeclaration()
    ensures Declaration("Class", "Order") == "public class Order {\n\n}"
  {
    assert "public " + "class" + " " + "Order" + " {\n\n}" == "public class Order {\n\n}";
  }

  lemma AcmeClassJoined()
    ensures "package com.acme;\n\n" + "public class Order {\n\n}" == "package com.acme;\n\npublic class Order {\n\n}"
  {
  }

  /** A prefix with an 's' in it: `/Users/dev/` holds no marker either. */
  lemma UsersNoMarker()
    ensures forall j :: 0 <= j < |"/Users/dev/"| ==> !MarkerAt("/Users/dev/" + "src/main/java/" + "com/acme", j)
  {
    var s := "/Users/dev/" + "src/main/java/" + "com/acme";
    forall j | 0 <= j < |"/Users/dev/"| ensures !MarkerAt(s, j) {
      assert s[j..j + 3][0] == s[j] && s[j..j + 3][1] == s[j + 1];
    }
  }

  /** The package of a folder below a source root whose prefix has an 's'. */
  lemma UsersPackage()
    ensures PackageName("/Users/dev/" + "src/main/java/" + "com/acme") == "com.acme"
  {
    UsersNoMarker();
    AcmeParts();
    PackageUnderSourceRoot("/Users/dev/", "com/acme");
    AcmeDotted();
  }

  /** The text of a class `Order` created in that folder. */
  lemma AcmeClassSource()
    ensures JavaSource("/work/src/main/java/com/acme", "Class", "", "Order")
      == "package com.acme;\n\npublic class Order {\n\n}"
  {
    assert "/work/" + "src/main/java/" + "com/acme" == "/work/src/main/java/com/acme";
    AcmeClassParts();
    AcmeClassText();
  }
}
