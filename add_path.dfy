/**
 * The batch rewriter that turns each URDF file's mesh references into
 * `package://` URIs relative to the ROS workspace's `src` directory, and
 * the check that reports which references were rewritten. Paths are
 * sequences of components, and a parsed document is the sequence of its
 * mesh elements' `filename` attributes in document order.
 */
module AddPath {
  import opened Common
  import opened Text

  // ---------------------------------------------------------------------
  // Cleaning the text in front of the declaration

  const DECLARATION_START := "<?xml"

  /**
   * `clean_xml_content`: drop everything before the first `<?xml`; text
   * without one is returned as it is.
   */
  function CleanXmlContent(raw: string): (r: string)
    ensures !Contains(raw, DECLARATION_START) ==> r == raw
    ensures Contains(raw, DECLARATION_START) ==>
      && StartsWith(r, DECLARATION_START)
      && exists p :: FirstOccurrence(raw, DECLARATION_START, p) && r == raw[p..]
  {
    var p := Find(raw, DECLARATION_START);
    if p == -1 then raw
    else if p > 0 then raw[p..]
    else raw
  }

  /** Cleaning twice is cleaning once. */
  lemma CleanXmlContentIdempotent(raw: string)
    ensures CleanXmlContent(CleanXmlContent(raw)) == CleanXmlContent(raw)
  {
    var once := CleanXmlContent(raw);
    if Contains(raw, DECLARATION_START) {
      assert OccursAt(once, DECLARATION_START, 0);
      FindZeroIffStartsWith(once, DECLARATION_START);
    }
  }

  /** The cleaned text is a suffix of the input. */
  lemma CleanXmlContentIsSuffix(raw: string)
    ensures EndsWith(raw, CleanXmlContent(raw))
  {
  }

  // ---------------------------------------------------------------------
  // Mesh filename rewriting

  const PACKAGE_SCHEME := "package://"

  /** `os.path.basename`: the text after the last `/`, or all of `path` when it has none. */
  function Basename(path: string): (r: string)
    ensures forall k :: 0 <= k < |r| ==> r[k] != '/'
    ensures EndsWith(path, r)
    ensures |r| == |path| || path[|path| - |r| - 1] == '/'
  {
    var i := LastIndexOf(path, '/');
    path[i + 1..]
  }

  /** The rewritten reference `package://<rel>/<basename>`. */
  function PackageUri(rel: string, file: string): string {
    PACKAGE_SCHEME + rel + "/" + Basename(file)
  }

  /** An attribute the rewrite applies to: present, and ending in `.stl` (case-sensitive). */
  predicate IsStl(attr: Option<string>) {
    attr.Some? && EndsWith(attr.value, ".stl")
  }

  /**
   * The rule applied to one mesh element's `filename`: a `.stl` reference
   * becomes a `package://` reference into `rel` to the same file, still
   * ending in `.stl`; anything else is left alone.
   */
  function RewriteMesh(rel: string, attr: Option<string>): (r: Option<string>)
    ensures IsStl(r) <==> IsStl(attr)
    ensures !IsStl(attr) ==> r == attr
    ensures IsStl(attr) ==> && StartsWith(r.value, PACKAGE_SCHEME + rel + "/")
                            && Basename(r.value) == Basename(attr.value)
  {
    if IsStl(attr) then
      PackageUriKeepsFile(rel, attr.value);
      Some(PackageUri(rel, attr.value))
    else attr
  }

  /** The basename of a `.stl` path still ends in `.stl`. */
  lemma BasenameKeepsStl(path: string)
    requires EndsWith(path, ".stl")
    ensures EndsWith(Basename(path), ".stl")
  {
    var n := |path|;
    var tail := path[n - 4..];
    assert tail == ".stl";
    var i := LastIndexOf(path, '/');
    assert i < n - 4;
    var r := path[i + 1..];
    assert r[|r| - 4..] == tail;
  }

  /** The basename of `prefix + "/" + b` is `b` when `b` has no `/`. */
  lemma BasenameAfterSlash(prefix: string, b: string)
    requires forall k :: 0 <= k < |b| ==> b[k] != '/'
    ensures Basename(prefix + "/" + b) == b
  {
    var path := prefix + "/" + b;
    assert path[|prefix|] == '/';
    forall j | |prefix| < j < |path| ensures path[j] != '/' {
      assert path[j] == b[j - |prefix| - 1];
    }
    assert LastIndexOf(path, '/') == |prefix|;
    assert path[|prefix| + 1..] == b;
  }

  /** A rewritten reference still ends in `.stl` and names the same file. */
  lemma PackageUriKeepsFile(rel: string, file: string)
    requires EndsWith(file, ".stl")
    ensures EndsWith(PackageUri(rel, file), ".stl")
    ensures Basename(PackageUri(rel, file)) == Basename(file)
    ensures StartsWith(PackageUri(rel, file), PACKAGE_SCHEME)
  {
    BasenameKeepsStl(file);
    var b := Basename(file);
    var uri := PackageUri(rel, file);
    assert uri == (PACKAGE_SCHEME + rel) + "/" + b;
    BasenameAfterSlash(PACKAGE_SCHEME + rel, b);
    assert uri[|uri| - 4..] == b[|b| - 4..];
    assert uri[..|PACKAGE_SCHEME|] == PACKAGE_SCHEME;
  }

  /** For a fixed package path, rewriting an already rewritten attribute changes nothing. */
  lemma RewriteMeshIdempotent(rel: string, attr: Option<string>)
    ensures RewriteMesh(rel, RewriteMesh(rel, attr)) == RewriteMesh(rel, attr)
  {
    if IsStl(attr) {
      PackageUriKeepsFile(rel, attr.value);
    }
  }

  /** The number of attributes the rewrite applies to. */
  function CountStl(attrs: seq<Option<string>>): (n: nat)
    ensures n <= |attrs|
    decreases |attrs|
  {
    if attrs == [] then 0
    else CountStl(attrs[..|attrs| - 1]) + (if IsStl(attrs[|attrs| - 1]) then 1 else 0)
  }

  /** Two lists whose attributes are `.stl` at the same places count the same. */
  lemma {:induction false} CountStlPointwise(a: seq<Option<string>>, b: seq<Option<string>>)
    requires |a| == |b|
    requires forall i :: 0 <= i < |a| ==> (IsStl(a[i]) <==> IsStl(b[i]))
    ensures CountStl(a) == CountStl(b)
    decreases |a|
  {
    if a != [] {
      var n := |a| - 1;
      CountStlPointwise(a[..n], b[..n]);
    }
  }

  /**
   * The whole document's attributes after the rewrite: each one rewritten
   * by the rule, with as many `.stl` references as before, so a rerun over
   * the result updates as many elements again.
   */
  function RewriteAll(rel: string, attrs: seq<Option<string>>): (r: seq<Option<string>>)
    ensures |r| == |attrs|
    ensures forall i :: 0 <= i < |attrs| ==> r[i] == RewriteMesh(rel, attrs[i])
    ensures CountStl(r) == CountStl(attrs)
  {
    var r := seq(|attrs|, i requires 0 <= i < |attrs| => RewriteMesh(rel, attrs[i]));
    CountStlPointwise(r, attrs);
    r
  }

  /**
   * The mesh loop: each element's `filename` is rewritten in place by the
   * rule, and the count is the number of `.stl` attributes.
   */
  method UpdateMeshes(meshes: array<Option<string>>, rel: string) returns (updated: nat)
    modifies meshes
    ensures meshes[..] == RewriteAll(rel, old(meshes[..]))
    ensures updated == CountStl(old(meshes[..]))
  {
    ghost var before := meshes[..];
    updated := 0;
    var i := 0;
    while i < meshes.Length
      invariant 0 <= i <= meshes.Length
      invariant forall k :: 0 <= k < i ==> meshes[k] == RewriteMesh(rel, before[k])
      invariant forall k :: i <= k < meshes.Length ==> meshes[k] == before[k]
      invariant updated == CountStl(before[..i])
    {
      assert before[..i + 1][..i] == before[..i];
      var current := meshes[i];
      if current.Some? && EndsWith(current.value, ".stl") {
        meshes[i] := Some(PackageUri(rel, current.value));
        updated := updated + 1;
      }
      assert meshes[i] == RewriteMesh(rel, before[i]);
      assert forall k :: 0 <= k <= i ==> meshes[k] == RewriteMesh(rel, before[k]);
      i := i + 1;
    }
    assert before[..i] == before;
    assert meshes[..] == RewriteAll(rel, before);
  }

  /** Rewriting a whole document twice is rewriting it once. */
  lemma RewriteAllIdempotent(rel: string, attrs: seq<Option<string>>)
    ensures RewriteAll(rel, RewriteAll(rel, attrs)) == RewriteAll(rel, attrs)
  {
    forall i | 0 <= i < |attrs|
      ensures RewriteMesh(rel, RewriteMesh(rel, attrs[i])) == RewriteMesh(rel, attrs[i])
    {
      RewriteMeshIdempotent(rel, attrs[i]);
    }
  }

  // ---------------------------------------------------------------------
  // The package-relative path

  /** `root` is a strict ancestor of `dir`: `root in dir.parents`. */
  predicate StrictAncestor(root: seq<string>, dir: seq<string>) {
    |root| < |dir| && dir[..|root|] == root
  }

  /**
   * `str(dir.relative_to(root)).replace('\\', '/')`: the components below
   * `root`, joined by the separator, with every backslash turned into a
   * slash; `None` when `root` is not a strict ancestor, and the file is skipped.
   */
  function RelativePackagePath(root: seq<string>, dir: seq<string>): (r: Option<string>)
    ensures r.Some? <==> StrictAncestor(root, dir)
    ensures r.Some? ==> '\\' !in r.value
  {
    if StrictAncestor(root, dir) then
      var joined := Join(dir[|root|..], "/");
      ReplaceCharRemoves(joined, '\\', '/');
      Some(ReplaceAll(joined, "\\", "/"))
    else None
  }

  /** A file directly in the workspace root, or outside it, is never rewritten. */
  lemma RootItselfIsSkipped(root: seq<string>)
    ensures RelativePackagePath(root, root).None?
  {
  }

  /** With no backslash in the components, the package path is their plain slash join. */
  lemma RelativePathWithoutBackslash(root: seq<string>, dir: seq<string>)
    requires StrictAncestor(root, dir)
    requires !Contains(Join(dir[|root|..], "/"), "\\")
    ensures RelativePackagePath(root, dir) == Some(Join(dir[|root|..], "/"))
  {
    ReplaceAllNoMatch(Join(dir[|root|..], "/"), "\\", "/");
  }

  // ---------------------------------------------------------------------
  // One pass over the files

  /** A file the walk yields: the components of its directory, its name and its text. */
  datatype UrdfFile = UrdfFile(dir: seq<string>, name: string, content: string)

  /** The XML parser's view of a text: its mesh `filename` attributes, or `None` on a parse error. */
  type Parser = string -> Option<seq<Option<string>>>

  const BYTE_ORDER_MARK := "\U{FEFF}"

  /** Parse the cleaned text; on failure, drop a leading byte-order mark and try once more. */
  function ParseWithRetry(parse: Parser, cleaned: string): (r: Option<seq<Option<string>>>)
    ensures parse(cleaned).Some? ==> r == parse(cleaned)
    ensures parse(cleaned).None? && !StartsWith(cleaned, BYTE_ORDER_MARK) ==> r.None?
  {
    match parse(cleaned)
    case Some(doc) => Some(doc)
    case None =>
      parse(if StartsWith(cleaned, BYTE_ORDER_MARK) then cleaned[1..] else cleaned)
  }

  /** How one file came out. */
  datatype Outcome =
    | NotUrdf
    | OutsideWorkspace
    | Unparseable
    | Updated(meshes: seq<Option<string>>, count: nat)

  /** The specification of one file's handling. */
  function FileOutcome(root: seq<string>, parse: Parser, f: UrdfFile): Outcome {
    if !EndsWith(f.name, ".urdf") then NotUrdf
    else
      match RelativePackagePath(root, f.dir)
      case None => OutsideWorkspace
      case Some(rel) =>
        match ParseWithRetry(parse, CleanXmlContent(f.content))
        case None => Unparseable
        case Some(doc) => Updated(RewriteAll(rel, doc), CountStl(doc))
  }

  /** `processed_files`: the number of files written back. */
  function Processed(outcomes: seq<Outcome>): (n: nat)
    ensures n <= |outcomes|
    decreases |outcomes|
  {
    if outcomes == [] then 0
    else Processed(outcomes[..|outcomes| - 1]) + (if outcomes[|outcomes| - 1].Updated? then 1 else 0)
  }

  /** `updated_meshes`: the references rewritten over all files. */
  function UpdatedMeshes(outcomes: seq<Outcome>): nat
    decreases |outcomes|
  {
    if outcomes == [] then 0
    else
      var last := outcomes[|outcomes| - 1];
      UpdatedMeshes(outcomes[..|outcomes| - 1]) + (if last.Updated? then last.count else 0)
  }

  /**
   * `update_urdf_mesh_paths_recursive` over the files the directory walk
   * yields: each `.urdf` under a strict descendant of `root` is cleaned,
   * parsed and rewritten, and the two counters are kept.
   */
  method UpdateUrdfMeshPaths(files: seq<UrdfFile>, root: seq<string>, parse: Parser)
    returns (outcomes: seq<Outcome>, processedFiles: nat, updatedMeshes: nat)
    ensures |outcomes| == |files|
    ensures forall i :: 0 <= i < |files| ==> outcomes[i] == FileOutcome(root, parse, files[i])
    ensures processedFiles == Processed(outcomes)
    ensures updatedMeshes == UpdatedMeshes(outcomes)
  {
    outcomes, processedFiles, updatedMeshes := [], 0, 0;
    var i := 0;
    while i < |files|
      invariant i <= |files|
      invariant |outcomes| == i
      invariant forall k :: 0 <= k < i ==> outcomes[k] == FileOutcome(root, parse, files[k])
      invariant processedFiles == Processed(outcomes)
      invariant updatedMeshes == UpdatedMeshes(outcomes)
    {
      var f := files[i];
      var outcome: Outcome;
      if !EndsWith(f.name, ".urdf") {
        outcome := NotUrdf;
      } else {
        var rel := RelativePackagePath(root, f.dir);
        if rel.None? {
          outcome := OutsideWorkspace;
        } else {
          var doc := ParseWithRetry(parse, CleanXmlContent(f.content));
          if doc.None? {
            outcome := Unparseable;
          } else {
            var meshes := new Option<string>[|doc.value|](k requires 0 <= k < |doc.value| => doc.value[k]);
            assert meshes[..] == doc.value;
            var count := UpdateMeshes(meshes, rel.value);
            outcome := Updated(meshes[..], count);
            processedFiles := processedFiles + 1;
            updatedMeshes := updatedMeshes + count;
          }
        }
      }
      assert (outcomes + [outcome])[..i] == outcomes;
      outcomes := outcomes + [outcome];
      i := i + 1;
    }
  }

  /** Every rewritten reference in a processed file is a `package://` URI of the file's package path. */
  lemma UpdatedFileUsesPackageUris(root: seq<string>, parse: Parser, f: UrdfFile, i: int)
    requires FileOutcome(root, parse, f).Updated?
    requires var o := FileOutcome(root, parse, f); 0 <= i < |o.meshes|
    ensures var o := FileOutcome(root, parse, f);
            var rel := RelativePackagePath(root, f.dir).value;
            var doc := ParseWithRetry(parse, CleanXmlContent(f.content)).value;
            && |o.meshes| == |doc|
            && (IsStl(doc[i]) ==> o.meshes[i] == Some(PackageUri(rel, doc[i].value))
                                  && StartsWith(o.meshes[i].value, PACKAGE_SCHEME))
            && (!IsStl(doc[i]) ==> o.meshes[i] == doc[i])
  {
    var rel := RelativePackagePath(root, f.dir).value;
    var doc := ParseWithRetry(parse, CleanXmlContent(f.content)).value;
    if IsStl(doc[i]) {
      PackageUriKeepsFile(rel, doc[i].value);
    }
  }

  // ---------------------------------------------------------------------
  // The verification report

  /** What `verify_urdf_changes` reports for one mesh attribute. */
  datatype Verdict = Modified | NotModified | Silent

  /** `package://` anywhere in a non-empty attribute counts as modified; missing or empty ones are not reported. */
  function Classify(attr: Option<string>): (v: Verdict)
    ensures v == Silent <==> attr.None? || attr.value == ""
    ensures v == Modified <==> attr.Some? && Contains(attr.value, PACKAGE_SCHEME)
  {
    if attr.None? || attr.value == "" then Silent
    else if Contains(attr.value, PACKAGE_SCHEME) then Modified
    else NotModified
  }

  /** After the rewrite every `.stl` reference is reported as modified, and the others as before. */
  lemma RewrittenIsReportedModified(rel: string, attr: Option<string>)
    ensures IsStl(attr) ==> Classify(RewriteMesh(rel, attr)) == Modified
    ensures !IsStl(attr) ==> Classify(RewriteMesh(rel, attr)) == Classify(attr)
  {
    if IsStl(attr) {
      PackageUriKeepsFile(rel, attr.value);
      assert OccursAt(PackageUri(rel, attr.value), PACKAGE_SCHEME, 0);
    }
  }

  /** The basename of a reference in the dataset's own layout. */
  lemma BasenameExample()
    ensures Basename("some/local/path/foo.stl") == "foo.stl"
  {
    assert "some/local/path/foo.stl" == "some/local/path" + "/" + "foo.stl";
    BasenameAfterSlash("some/local/path", "foo.stl");
  }

  /** A reference in the dataset's own layout under the package `bar`. */
  lemma RewriteExample()
    ensures RewriteMesh("bar", Some("some/local/path/foo.stl")) == Some("package://bar/foo.stl")
  {
    var path := "some/local/path/foo.stl";
    BasenameExample();
    assert IsStl(Some(path)) by {
      assert path[19..] == ".stl";
    }
    assert PackageUri("bar", path) == "package://bar/foo.stl" by {
      assert "package://" + "bar" + "/" + "foo.stl" == "package://bar/foo.stl";
    }
  }
}
