/**
 * The batch patcher that gives each object's robot-description (URDF) file
 * an `<inertial>` block: it moves the XML declaration to the front,
 * estimates mass, centroid and inertia tensor from the object's mesh
 * (falling back to a bounding-box prism when the mesh numbers are
 * degenerate), and splices the block in after the first `</collision>`.
 * The mesh library's numbers, the XML parser and the filesystem are inputs.
 */
module AddInertial {
  import opened Common
  import opened Text

  // ---------------------------------------------------------------------
  // Moving the XML declaration to the front

  const XML_DECLARATION := "<?xml version=\"1.0\"?>"

  /** The new file text, and whether the file is written back. */
  datatype FixResult = FixResult(content: string, rewritten: bool)

  /**
   * `fix_xml_format`: when the declaration first occurs at a position p > 0,
   * the text is rotated to `content[p:] + content[:p]` and written back;
   * when it stands at 0 or is absent, nothing is written.
   */
  function FixXmlFormat(content: string): (r: FixResult)
    ensures r.rewritten <==> Contains(content, XML_DECLARATION) && !StartsWith(content, XML_DECLARATION)
    ensures !r.rewritten ==> r.content == content
    ensures r.rewritten ==>
      && StartsWith(r.content, XML_DECLARATION)
      && |r.content| == |content|
      && multiset(r.content) == multiset(content)
      && exists p :: FirstOccurrence(content, XML_DECLARATION, p) && r.content == content[p..] + content[..p]
  {
    var p := Find(content, XML_DECLARATION);
    FindZeroIffStartsWith(content, XML_DECLARATION);
    if p > 0 then
      var rotated := content[p..] + content[..p];
      assert content == content[..p] + content[p..];
      assert rotated[..|XML_DECLARATION|] == content[p..p + |XML_DECLARATION|];
      FixResult(rotated, true)
    else
      FixResult(content, false)
  }

  /** Once fixed, a file is left alone by a second fix. */
  lemma FixXmlFormatIdempotent(content: string)
    ensures var once := FixXmlFormat(content).content;
            FixXmlFormat(once) == FixResult(once, false)
  {
  }

  /** Whenever the declaration occurs, the fixed text starts with it. */
  lemma FixedStartsWithDeclaration(content: string)
    requires Contains(content, XML_DECLARATION)
    ensures StartsWith(FixXmlFormat(content).content, XML_DECLARATION)
  {
  }

  // ---------------------------------------------------------------------
  // Inertial properties

  const DENSITY := 800.0
  /** Hull volumes below this are treated as degenerate (1e-9). */
  const MIN_VOLUME := 0.000000001
  /** Bounding-box extents are raised to at least this (1e-6). */
  const MIN_SIZE := 0.000001
  /** Diagonal inertia entries below this trigger the box estimate (1e-7). */
  const MIN_INERTIA := 0.0000001
  /** The absolute tolerance of `np.allclose` (1e-8). */
  const ALLCLOSE_ATOL := 0.00000001

  /** A 3 by 3 matrix, row by row. */
  datatype Mat3 = Mat3(row0: Vec3, row1: Vec3, row2: Vec3)

  /** `np.diag([a, b, c])`. */
  function Diag(a: real, b: real, c: real): Mat3 {
    Mat3(Vec3(a, 0.0, 0.0), Vec3(0.0, b, 0.0), Vec3(0.0, 0.0, c))
  }

  /** The triple `mass, centroid, inertia_tensor`. */
  datatype Inertial = Inertial(mass: real, centroid: Vec3, tensor: Mat3)

  /** What the mesh library reports for the convex hull of the loaded mesh, at the working density. */
  datatype Hull = Hull(volume: real, lower: Vec3, upper: Vec3, centerMass: Vec3, momentInertia: Mat3)

  /** The mesh the estimate continues with: its mass, centroid, inertia and bounding-box extents. */
  datatype Body = Body(mass: real, centroid: Vec3, inertia: Mat3, extents: Vec3)

  /** The values returned when anything in the estimate raises. */
  const DEFAULT_INERTIAL := Inertial(0.1, Vec3(0.0, 0.0, 0.0), Diag(0.001, 0.001, 0.001))

  /** `np.maximum(size, 1e-6)`: extents at least `MIN_SIZE`, larger ones kept. */
  function ClampSize(s: Vec3): (r: Vec3)
    ensures r.x >= MIN_SIZE && r.y >= MIN_SIZE && r.z >= MIN_SIZE
    ensures s.x >= MIN_SIZE ==> r.x == s.x
    ensures s.y >= MIN_SIZE ==> r.y == s.y
    ensures s.z >= MIN_SIZE ==> r.z == s.z
  {
    Vec3(Max(s.x, MIN_SIZE), Max(s.y, MIN_SIZE), Max(s.z, MIN_SIZE))
  }

  /** The volume of a box whose extents have been clamped: never zero. */
  function BoxVolume(s: Vec3): (v: real)
    requires s.x >= MIN_SIZE && s.y >= MIN_SIZE && s.z >= MIN_SIZE
    ensures v > 0.0
  {
    assert s.x * s.y > 0.0;
    s.x * s.y * s.z
  }

  function Midpoint(a: Vec3, b: Vec3): Vec3 {
    Vec3((a.x + b.x) / 2.0, (a.y + b.y) / 2.0, (a.z + b.z) / 2.0)
  }

  /** The principal moments of a solid rectangular prism of the given mass and extents. */
  function PrismInertia(mass: real, s: Vec3): Vec3 {
    Vec3(mass / 12.0 * (s.y * s.y + s.z * s.z),
         mass / 12.0 * (s.x * s.x + s.z * s.z),
         mass / 12.0 * (s.x * s.x + s.y * s.y))
  }

  /**
   * The volume guard: a hull below `MIN_VOLUME` is replaced by a solid box
   * of its clamped bounding-box extents, centred on the bounds. The mesh
   * library's box is taken to have the closed-form prism inertia.
   */
  function GuardVolume(h: Hull): (b: Body)
    ensures b.mass > 0.0
  {
    if h.volume < MIN_VOLUME then
      var size := ClampSize(Sub(h.upper, h.lower));
      var mass := DENSITY * BoxVolume(size);
      var p := PrismInertia(mass, size);
      Body(mass, Midpoint(h.lower, h.upper), Diag(p.x, p.y, p.z), size)
    else
      Body(DENSITY * h.volume, h.centerMass, h.momentInertia, Sub(h.upper, h.lower))
  }

  function Abs(a: real): real {
    if a < 0.0 then -a else a
  }

  /** `np.allclose(t, 0)`: every entry within the absolute tolerance of zero. */
  predicate AllCloseToZero(t: Mat3) {
    && Abs(t.row0.x) <= ALLCLOSE_ATOL && Abs(t.row0.y) <= ALLCLOSE_ATOL && Abs(t.row0.z) <= ALLCLOSE_ATOL
    && Abs(t.row1.x) <= ALLCLOSE_ATOL && Abs(t.row1.y) <= ALLCLOSE_ATOL && Abs(t.row1.z) <= ALLCLOSE_ATOL
    && Abs(t.row2.x) <= ALLCLOSE_ATOL && Abs(t.row2.y) <= ALLCLOSE_ATOL && Abs(t.row2.z) <= ALLCLOSE_ATOL
  }

  /** The test that discards the tensor for the box estimate. */
  predicate NeedsBoxInertia(t: Mat3) {
    t.row0.x < MIN_INERTIA || t.row1.y < MIN_INERTIA || t.row2.z < MIN_INERTIA || AllCloseToZero(t)
  }

  /** Every diagonal entry is at least `MIN_INERTIA`. */
  predicate DiagonalAtLeastFloor(t: Mat3) {
    t.row0.x >= MIN_INERTIA && t.row1.y >= MIN_INERTIA && t.row2.z >= MIN_INERTIA
  }

  /** Diagonal entries no greater than the sum of the other two: the tensor is physically realisable. */
  predicate Realisable(t: Mat3) {
    && t.row0.x <= t.row1.y + t.row2.z
    && t.row1.y <= t.row0.x + t.row2.z
    && t.row2.z <= t.row0.x + t.row1.y
  }

  /**
   * The box estimate: the prism moments of the clamped extents, each raised
   * to `MIN_INERTIA`, on a diagonal tensor. For a non-negative mass it is
   * realisable.
   */
  function BoxTensor(mass: real, extents: Vec3): (t: Mat3)
    ensures DiagonalAtLeastFloor(t)
    ensures t.row0.y == t.row0.z == t.row1.x == t.row1.z == t.row2.x == t.row2.y == 0.0
    ensures mass >= 0.0 ==> Realisable(t)
  {
    var p := PrismInertia(mass, ClampSize(extents));
    assert mass >= 0.0 ==> p.x >= 0.0 && p.y >= 0.0 && p.z >= 0.0 && p.x <= p.y + p.z && p.y <= p.x + p.z && p.z <= p.x + p.y by {
      if mass >= 0.0 {
        PrismMomentsTriangle(mass, ClampSize(extents));
      }
    }
    Diag(Max(p.x, MIN_INERTIA), Max(p.y, MIN_INERTIA), Max(p.z, MIN_INERTIA))
  }

  /**
   * `calculate_inertial_properties`. `mesh` is `None` when loading the mesh
   * or any later step raises. The mass is always positive and every
   * diagonal entry of the tensor at least `MIN_INERTIA`.
   */
  function CalculateInertialProperties(mesh: Option<Hull>): (r: Inertial)
    ensures r.mass > 0.0
    ensures DiagonalAtLeastFloor(r.tensor)
    ensures mesh.None? ==> r == DEFAULT_INERTIAL
  {
    match mesh
    case None => DEFAULT_INERTIAL
    case Some(h) =>
      var b := GuardVolume(h);
      if NeedsBoxInertia(b.inertia) then
        Inertial(b.mass, b.centroid, BoxTensor(b.mass, b.extents))
      else
        Inertial(b.mass, b.centroid, b.inertia)
  }

  /** The `np.allclose` test never decides alone: a near-zero tensor already fails the diagonal test. */
  lemma AllCloseImpliesSmallDiagonal(t: Mat3)
    requires AllCloseToZero(t)
    ensures t.row0.x < MIN_INERTIA && t.row1.y < MIN_INERTIA && t.row2.z < MIN_INERTIA
  {
  }

  /** The prism moments are non-negative and none exceeds the sum of the other two. */
  lemma PrismMomentsTriangle(mass: real, s: Vec3)
    requires mass >= 0.0
    ensures var p := PrismInertia(mass, s);
            && p.x >= 0.0 && p.y >= 0.0 && p.z >= 0.0
            && p.x <= p.y + p.z && p.y <= p.x + p.z && p.z <= p.x + p.y
  {
    var m := mass / 12.0;
    assert m >= 0.0;
    var a, b, c := m * (s.x * s.x), m * (s.y * s.y), m * (s.z * s.z);
    assert a >= 0.0 && b >= 0.0 && c >= 0.0;
    var p := PrismInertia(mass, s);
    assert p.x == b + c;
    assert p.y == a + c;
    assert p.z == a + b;
  }

  /**
   * Whenever the estimate does not keep the mesh library's own tensor (a
   * failure, or the box estimate), the tensor is diagonal and physically
   * realisable, and the box estimate keeps the mesh's mass and centroid.
   */
  lemma EstimatedTensorIsRealisable(mesh: Option<Hull>)
    requires mesh.None? || NeedsBoxInertia(GuardVolume(mesh.value).inertia)
    ensures var r := CalculateInertialProperties(mesh);
            && Realisable(r.tensor)
            && r.tensor.row0.y == r.tensor.row0.z == r.tensor.row1.x == 0.0
            && r.tensor.row1.z == r.tensor.row2.x == r.tensor.row2.y == 0.0
            && (mesh.Some? ==> r.mass == GuardVolume(mesh.value).mass && r.centroid == GuardVolume(mesh.value).centroid)
  {
  }

  /**
   * A mesh with no volume and no inertia whose bounding box is a 0.1 m cube
   * comes out with mass 0.8 kg and the prism moments 0.8 / 12 * 0.02 =
   * 1/750 (about 0.00133) on the diagonal.
   */
  lemma DegenerateCubeExample(lower: Vec3)
    ensures var h := Hull(0.0, lower, Vec3(lower.x + 0.1, lower.y + 0.1, lower.z + 0.1),
                          Vec3(0.0, 0.0, 0.0), Diag(0.0, 0.0, 0.0));
            var r := CalculateInertialProperties(Some(h));
            r.mass == 0.8 && r.tensor == Diag(1.0 / 750.0, 1.0 / 750.0, 1.0 / 750.0)
  {
    var h := Hull(0.0, lower, Vec3(lower.x + 0.1, lower.y + 0.1, lower.z + 0.1),
                  Vec3(0.0, 0.0, 0.0), Diag(0.0, 0.0, 0.0));
    var size := ClampSize(Sub(h.upper, h.lower));
    assert Sub(h.upper, h.lower) == Vec3(0.1, 0.1, 0.1);
    assert size == Vec3(0.1, 0.1, 0.1);
    assert BoxVolume(size) == 0.001;
    var b := GuardVolume(h);
    assert b.mass == 0.8;
    assert PrismInertia(0.8, size) == Vec3(1.0 / 750.0, 1.0 / 750.0, 1.0 / 750.0);
    assert !NeedsBoxInertia(b.inertia);
  }

  /**
   * A hull of the right volume whose reported tensor is zero is caught by
   * the diagonal test, and the box estimate gives the 0.1 m cube of mass
   * 0.8 kg its prism moments 1/750.
   */
  lemma ZeroTensorCubeExample(lower: Vec3)
    ensures var h := Hull(0.001, lower, Vec3(lower.x + 0.1, lower.y + 0.1, lower.z + 0.1),
                          Vec3(0.0, 0.0, 0.0), Diag(0.0, 0.0, 0.0));
            var r := CalculateInertialProperties(Some(h));
            r.mass == 0.8 && r.tensor == Diag(1.0 / 750.0, 1.0 / 750.0, 1.0 / 750.0)
  {
    var h := Hull(0.001, lower, Vec3(lower.x + 0.1, lower.y + 0.1, lower.z + 0.1),
                  Vec3(0.0, 0.0, 0.0), Diag(0.0, 0.0, 0.0));
    assert Sub(h.upper, h.lower) == Vec3(0.1, 0.1, 0.1);
    assert ClampSize(GuardVolume(h).extents) == Vec3(0.1, 0.1, 0.1);
    assert PrismInertia(0.8, Vec3(0.1, 0.1, 0.1)) == Vec3(1.0 / 750.0, 1.0 / 750.0, 1.0 / 750.0);
  }

  // ---------------------------------------------------------------------
  // Splicing the block into the file

  const COLLISION_END := "</collision>"

  /**
   * What the XML parser reports for the file: whether it has a `link`,
   * whether the first link has an `inertial`, and whether the text's first
   * `</collision>` closes a collision of that first link. The patcher never
   * asks the last question, but its answer decides where the block lands.
   */
  datatype Outline = Unparseable | Outline(hasLink: bool, linkHasInertial: bool, collisionInLink: bool)

  /** How one file was handled. */
  datatype Status = Patched | ParseError | NoLink | HasInertial | NoCollision

  /** The file's final text and how it was handled. */
  datatype PatchResult = PatchResult(content: string, status: Status)

  /** The newline put before the block unless the text after `</collision>` already starts with one. */
  function Separator(after: string): string {
    if StartsWith(after, "\n") then "" else "\n"
  }

  /**
   * Insert `block` right after the first `</collision>`: the text up to and
   * including it, a separating newline if needed, the block, and the rest,
   * all unchanged. `None` when there is no `</collision>`.
   */
  function InsertAfterFirstCollision(content: string, block: string): (r: Option<string>)
    ensures r.None? <==> !Contains(content, COLLISION_END)
    ensures r.Some? ==> exists q :: && FirstOccurrence(content, COLLISION_END, q)
                                    && var i := q + |COLLISION_END|;
                                       r.value == content[..i] + Separator(content[i..]) + block + content[i..]
  {
    var q := Find(content, COLLISION_END);
    if q == -1 then None
    else
      var i := q + |COLLISION_END|;
      Some(content[..i] + Separator(content[i..]) + block + content[i..])
  }

  /**
   * `add_inertial_to_urdf`. The declaration is fixed first (and that fix is
   * written even when the file is skipped afterwards); `parse` is the XML
   * parser's view of the fixed text, `mesh` the mesh library's numbers for
   * the object, `format` the printing of the block.
   */
  function AddInertialToUrdf(file: string, parse: string -> Outline, mesh: Option<Hull>,
                             format: Inertial -> string): (r: PatchResult)
    ensures var fixed := FixXmlFormat(file).content;
            && (r.status != Patched ==> r.content == fixed)
            && (r.status == Patched <==> && parse(fixed).Outline? && parse(fixed).hasLink
                                         && !parse(fixed).linkHasInertial && Contains(fixed, COLLISION_END))
            && (r.status == Patched ==>
                  Some(r.content) == InsertAfterFirstCollision(fixed, format(CalculateInertialProperties(mesh))))
  {
    var fixed := FixXmlFormat(file).content;
    match parse(fixed)
    case Unparseable => PatchResult(fixed, ParseError)
    case Outline(hasLink, hasInertial, _) =>
      if !hasLink then PatchResult(fixed, NoLink)
      else if hasInertial then PatchResult(fixed, HasInertial)
      else
        var block := format(CalculateInertialProperties(mesh));
        match InsertAfterFirstCollision(fixed, block)
        case None => PatchResult(fixed, NoCollision)
        case Some(patched) => PatchResult(patched, Patched)
  }

  /** In `XML_DECLARATION`, `<` stands only at position 0. */
  lemma OpenAngleOfDeclaration(p: int)
    requires 0 <= p < |XML_DECLARATION| && XML_DECLARATION[p] == '<'
    ensures p == 0
  {
  }

  /** A `</collision>` cannot start inside a leading declaration's first 9 characters. */
  lemma NoCollisionEndInDeclaration(s: string, q: int)
    requires StartsWith(s, XML_DECLARATION) && 0 <= q < 9
    ensures !OccursAt(s, COLLISION_END, q)
  {
    if q + |COLLISION_END| <= |s| {
      var w := s[q..q + |COLLISION_END|];
      assert w[0] == s[q] == XML_DECLARATION[q];
      if XML_DECLARATION[q] != '<' {
        assert w[0] != COLLISION_END[0];
      } else {
        OpenAngleOfDeclaration(q);
        assert w[1] == XML_DECLARATION[1] != COLLISION_END[1];
      }
    }
  }

  /** Inserting after `</collision>` keeps a leading declaration in place. */
  lemma InsertKeepsDeclaration(content: string, block: string)
    requires StartsWith(content, XML_DECLARATION) && Contains(content, COLLISION_END)
    ensures StartsWith(InsertAfterFirstCollision(content, block).value, XML_DECLARATION)
  {
    var q := Find(content, COLLISION_END);
    if q < 9 {
      NoCollisionEndInDeclaration(content, q);
    }
    var i := q + |COLLISION_END|;
    var patched := content[..i] + Separator(content[i..]) + block + content[i..];
    assert patched[..|XML_DECLARATION|] == content[..|XML_DECLARATION|];
  }

  /** In `XML_DECLARATION`, `>` stands only at its last position. */
  lemma CloseAngleOfDeclaration(k: int)
    requires 0 <= k < |XML_DECLARATION| - 1
    ensures XML_DECLARATION[k] != '>'
  {
  }

  /**
   * A block that cannot help to form a declaration where there was none:
   * it holds no `?`, and does not end in `<`. The block `add_inertial_to_urdf`
   * prints is of this kind: it ends in `</inertial>` and has no `?`.
   */
  predicate InertBlock(block: string) {
    '?' !in block && (block == [] || block[|block| - 1] != '<')
  }

  /** A declaration starting after the block would be one in the text after the splice point. */
  lemma NoDeclarationAfterBlock(t: string, i: int, front: string, s: int)
    requires !Contains(t, XML_DECLARATION) && 0 <= i <= |t| && |front| <= s
    ensures !OccursAt(front + t[i..], XML_DECLARATION, s)
  {
    var j := s - |front|;
    assert !OccursAt(t, XML_DECLARATION, j + i);
    OccursAtDrop(t, XML_DECLARATION, i, j);
    OccursAtAppend(front, t[i..], XML_DECLARATION, j);
  }

  /** No declaration starts inside an inert block. */
  lemma NoDeclarationInBlock(front: string, block: string, rest: string, s: int)
    requires InertBlock(block) && |front| <= s < |front| + |block|
    ensures !OccursAt(front + block + rest, XML_DECLARATION, s)
  {
    var v := front + block + rest;
    var n := |XML_DECLARATION|;
    if s + n <= |v| {
      if s + 1 < |front| + |block| {
        assert v[s + 1] == block[s + 1 - |front|];
        assert v[s..s + n][1] != XML_DECLARATION[1];
      } else {
        assert v[s] == block[|block| - 1];
        assert v[s..s + n][0] != XML_DECLARATION[0];
      }
    }
  }

  /** A declaration wholly before the splice point would be one in the text. */
  lemma NoDeclarationBefore(t: string, i: int, tail: string, s: int)
    requires !Contains(t, XML_DECLARATION) && 0 <= s && s + |XML_DECLARATION| <= i <= |t|
    ensures !OccursAt(t[..i] + tail, XML_DECLARATION, s)
  {
    var v := t[..i] + tail;
    var n := |XML_DECLARATION|;
    assert !OccursAt(t, XML_DECLARATION, s);
    assert v[s..s + n] == t[s..s + n] by {
      assert v[s..s + n] == t[..i][s..s + n];
      assert t[s..s + n] == t[..i][s..s + n];
    }
  }

  /** No declaration runs across a splice point right after a `>`. */
  lemma NoDeclarationAcross(front: string, tail: string, s: int)
    requires front != [] && front[|front| - 1] == '>'
    requires 0 <= s < |front| < s + |XML_DECLARATION|
    ensures !OccursAt(front + tail, XML_DECLARATION, s)
  {
    var v := front + tail;
    var n := |XML_DECLARATION|;
    if s + n <= |v| {
      var k := |front| - 1 - s;
      CloseAngleOfDeclaration(k);
      assert v[s..s + n][k] == front[|front| - 1];
      assert v[s..s + n][k] != XML_DECLARATION[k];
    }
  }

  /**
   * No declaration starts at `s` when an inert block and an optional
   * newline are spliced into declaration-free text right after a `>`.
   */
  lemma NoDeclarationInSplice(t: string, i: int, sep: string, block: string, s: int)
    requires !Contains(t, XML_DECLARATION) && InertBlock(block)
    requires 1 <= i <= |t| && t[i - 1] == '>' && (sep == "" || sep == "\n") && 0 <= s
    ensures !OccursAt(t[..i] + sep + block + t[i..], XML_DECLARATION, s)
  {
    var v := t[..i] + sep + block + t[i..];
    var tail := sep + block + t[i..];
    assert v == t[..i] + tail;
    if s >= i + |sep| + |block| {
      NoDeclarationAfterBlock(t, i, t[..i] + sep + block, s);
    } else if s >= i + |sep| {
      NoDeclarationInBlock(t[..i] + sep, block, t[i..], s);
    } else if s + |XML_DECLARATION| <= i {
      NoDeclarationBefore(t, i, tail, s);
    } else if s < i {
      NoDeclarationAcross(t[..i], tail, s);
    } else {
      assert v[s] == '\n';
      assert s + |XML_DECLARATION| > |v| || v[s..s + |XML_DECLARATION|][0] != XML_DECLARATION[0];
    }
  }

  /** No declaration starts at `s` of the spliced text when the text had none. */
  lemma NoDeclarationAt(t: string, block: string, s: int)
    requires !Contains(t, XML_DECLARATION) && Contains(t, COLLISION_END) && InertBlock(block)
    requires 0 <= s
    ensures !OccursAt(InsertAfterFirstCollision(t, block).value, XML_DECLARATION, s)
  {
    var q := Find(t, COLLISION_END);
    var i := q + |COLLISION_END|;
    assert t[i - 1] == t[q..i][|COLLISION_END| - 1] == '>';
    NoDeclarationInSplice(t, i, Separator(t[i..]), block, s);
  }

  /** Splicing an inert block after `</collision>` creates no declaration. */
  lemma InsertCreatesNoDeclaration(t: string, block: string)
    requires !Contains(t, XML_DECLARATION) && Contains(t, COLLISION_END) && InertBlock(block)
    ensures !Contains(InsertAfterFirstCollision(t, block).value, XML_DECLARATION)
  {
    var v := InsertAfterFirstCollision(t, block).value;
    forall s | 0 <= s <= |v| ensures !OccursAt(v, XML_DECLARATION, s) {
      NoDeclarationAt(t, block, s);
    }
  }

  /**
   * A patched file passes a second declaration fix unchanged when the block
   * was inert: a leading declaration stays in front, and a file without one
   * does not gain one.
   */
  lemma PatchedNeedsNoFix(file: string, parse: string -> Outline, mesh: Option<Hull>,
                          format: Inertial -> string)
    requires AddInertialToUrdf(file, parse, mesh, format).status == Patched
    requires InertBlock(format(CalculateInertialProperties(mesh)))
    ensures var first := AddInertialToUrdf(file, parse, mesh, format).content;
            FixXmlFormat(first) == FixResult(first, false)
  {
    var fixed := FixXmlFormat(file).content;
    var block := format(CalculateInertialProperties(mesh));
    var first := AddInertialToUrdf(file, parse, mesh, format).content;
    if Contains(file, XML_DECLARATION) {
      FixedStartsWithDeclaration(file);
      InsertKeepsDeclaration(fixed, block);
    } else {
      InsertCreatesNoDeclaration(fixed, block);
    }
  }

  /**
   * The parser reads the block spliced into `text` as the inertial of the
   * first link, whenever the first `</collision>` of `text` closes a
   * collision of that link.
   */
  predicate SeesSplicedInertial(parse: string -> Outline, text: string, block: string) {
    parse(text).Outline? && parse(text).collisionInLink && Contains(text, COLLISION_END) ==>
      var spliced := parse(InsertAfterFirstCollision(text, block).value);
      spliced.Outline? && spliced.linkHasInertial
  }

  /**
   * Running the patcher a second time changes nothing when the first run
   * spliced an inert block into the first link: the first `</collision>`
   * closed a collision of that link, and the parser reads the block as
   * its inertial.
   */
  lemma SecondRunChangesNothing(file: string, parse: string -> Outline, mesh: Option<Hull>,
                                format: Inertial -> string, mesh2: Option<Hull>, format2: Inertial -> string)
    requires var fixed := FixXmlFormat(file).content;
             var block := format(CalculateInertialProperties(mesh));
             AddInertialToUrdf(file, parse, mesh, format).status == Patched ==>
               && InertBlock(block)
               && parse(fixed).collisionInLink
               && SeesSplicedInertial(parse, fixed, block)
    ensures var first := AddInertialToUrdf(file, parse, mesh, format);
            AddInertialToUrdf(first.content, parse, mesh2, format2).content == first.content
  {
    FixXmlFormatIdempotent(file);
    if AddInertialToUrdf(file, parse, mesh, format).status == Patched {
      PatchedNeedsNoFix(file, parse, mesh, format);
    }
  }

  /**
   * When the first `</collision>` lies outside the first link, the block
   * lands elsewhere and the parser still finds no inertial in the first
   * link: then every further run patches again and the file keeps growing.
   */
  lemma CollisionOutsideLinkRepatches(file: string, parse: string -> Outline, mesh: Option<Hull>,
                                      format: Inertial -> string, mesh2: Option<Hull>, format2: Inertial -> string)
    requires AddInertialToUrdf(file, parse, mesh, format).status == Patched
    requires InertBlock(format(CalculateInertialProperties(mesh)))
    requires var first := AddInertialToUrdf(file, parse, mesh, format).content;
             && parse(first).Outline? && parse(first).hasLink && !parse(first).linkHasInertial
    ensures var first := AddInertialToUrdf(file, parse, mesh, format).content;
            var second := AddInertialToUrdf(first, parse, mesh2, format2);
            && second.status == Patched
            && |second.content| >= |first| + |format2(CalculateInertialProperties(mesh2))|
  {
    var fixed := FixXmlFormat(file).content;
    var first := AddInertialToUrdf(file, parse, mesh, format).content;
    PatchedNeedsNoFix(file, parse, mesh, format);
    var q := Find(fixed, COLLISION_END);
    var i := q + |COLLISION_END|;
    assert first[..i] == fixed[..i];
    assert OccursAt(first, COLLISION_END, q) by {
      assert first[q..i] == fixed[q..i];
    }
  }

  // ---------------------------------------------------------------------
  // Pairing the files of each object directory

  /** pathlib's `suffix`: from the last `.` of the name, unless that dot is first or last. */
  function Suffix(name: string): string {
    var i := LastIndexOf(name, '.');
    if 0 < i < |name| - 1 then name[i..] else ""
  }

  /** The name ends with `ext` and has something before it. */
  predicate HasExtension(name: string, ext: string) {
    |name| > |ext| && EndsWith(name, ext)
  }

  /**
   * For an extension with one leading dot, comparing pathlib's suffix is the
   * same as `HasExtension`; the scan below is written with the latter.
   */
  lemma SuffixIsExtension(name: string, ext: string)
    requires |ext| >= 2 && ext[0] == '.' && '.' !in ext[1..]
    ensures Suffix(name) == ext <==> HasExtension(name, ext)
  {
    if HasExtension(name, ext) {
      var k := |name| - |ext|;
      assert name[k] == ext[0];
      forall j | k < j < |name| ensures name[j] != '.' {
        assert name[j] == ext[1..][j - k - 1];
      }
    }
  }

  /** `.urdf` and `.stl` are such extensions. */
  lemma ModelSuffixes(name: string)
    ensures Suffix(name) == ".urdf" <==> HasExtension(name, ".urdf")
    ensures Suffix(name) == ".stl" <==> HasExtension(name, ".stl")
  {
    SuffixIsExtension(name, ".urdf");
    SuffixIsExtension(name, ".stl");
  }

  /** No name has both extensions, so the scan's `elif` tests are independent. */
  lemma ExtensionsExclusive(name: string)
    ensures !(HasExtension(name, ".urdf") && HasExtension(name, ".stl"))
  {
    if HasExtension(name, ".stl") {
      assert name[|name| - 4] == '.';
      assert name[|name| - 5..][1] == '.' != 'u';
    }
  }

  /** `i` is the last index whose name has extension `ext`. */
  predicate LastWith(names: seq<string>, ext: string, i: int) {
    && 0 <= i < |names|
    && HasExtension(names[i], ext)
    && forall j :: i < j < |names| ==> !HasExtension(names[j], ext)
  }

  /** The last name with extension `ext`: the scan's repeated assignment keeps the last one. */
  function LastWithExtension(names: seq<string>, ext: string): (r: Option<string>)
    ensures r.None? <==> forall i :: 0 <= i < |names| ==> !HasExtension(names[i], ext)
    ensures r.Some? ==> exists i :: LastWith(names, ext, i) && names[i] == r.value
    decreases |names|
  {
    if names == [] then None
    else
      var n := |names| - 1;
      if HasExtension(names[n], ext) then
        assert LastWith(names, ext, n);
        Some(names[n])
      else
        var init := names[..n];
        var r := LastWithExtension(init, ext);
        assert forall i | 0 <= i < n :: init[i] == names[i];
        assert r.Some? ==> exists i :: LastWith(names, ext, i) && names[i] == r.value by {
          if r.Some? {
            var i :| LastWith(init, ext, i) && init[i] == r.value;
            assert LastWith(names, ext, i);
          }
        }
        r
  }

  /** The scan of one object directory for its `.urdf` and `.stl` files. */
  method FindModelFiles(children: seq<string>) returns (urdf: Option<string>, stl: Option<string>)
    ensures urdf == LastWithExtension(children, ".urdf")
    ensures stl == LastWithExtension(children, ".stl")
  {
    urdf, stl := None, None;
    var i := 0;
    while i < |children|
      invariant i <= |children|
      invariant urdf == LastWithExtension(children[..i], ".urdf")
      invariant stl == LastWithExtension(children[..i], ".stl")
    {
      var file := children[i];
      assert children[..i + 1][..i] == children[..i];
      ExtensionsExclusive(file);
      if HasExtension(file, ".urdf") {
        urdf := Some(file);
      } else if HasExtension(file, ".stl") {
        stl := Some(file);
      }
      i := i + 1;
    }
    assert children[..i] == children;
  }

  /** One entry of the dataset directory. */
  datatype Entry = Entry(name: string, isDir: bool, children: seq<string>)

  /** A directory to patch: its name and the URDF and mesh files found in it. */
  datatype Job = Job(dir: string, urdf: string, stl: string)

  /** The job for one entry, if it is a directory holding both kinds of file. */
  function JobFor(e: Entry): seq<Job> {
    var urdf := LastWithExtension(e.children, ".urdf");
    var stl := LastWithExtension(e.children, ".stl");
    if e.isDir && urdf.Some? && stl.Some? then [Job(e.name, urdf.value, stl.value)] else []
  }

  /** The jobs for a sequence of entries, in order. */
  function Jobs(entries: seq<Entry>): seq<Job>
    decreases |entries|
  {
    if entries == [] then [] else Jobs(entries[..|entries| - 1]) + JobFor(entries[|entries| - 1])
  }

  /** The jobs of one more entry come after those of the entries before it. */
  lemma JobsAppend(entries: seq<Entry>, i: int)
    requires 0 <= i < |entries|
    ensures Jobs(entries[..i + 1]) == Jobs(entries[..i]) + JobFor(entries[i])
  {
    assert entries[..i + 1][..i] == entries[..i];
  }

  /**
   * `process_ycb_dataset`: for each directory entry, pair its last `.urdf`
   * with its last `.stl` and hand the pair to the patcher; directories
   * lacking either are skipped.
   */
  method ProcessYcbDataset(entries: seq<Entry>) returns (jobs: seq<Job>)
    ensures jobs == Jobs(entries)
  {
    jobs := [];
    var i := 0;
    while i < |entries|
      invariant i <= |entries|
      invariant jobs == Jobs(entries[..i])
    {
      var e := entries[i];
      JobsAppend(entries, i);
      if e.isDir {
        var urdf, stl := FindModelFiles(e.children);
        if urdf.Some? && stl.Some? {
          jobs := jobs + [Job(e.name, urdf.value, stl.value)];
        }
      }
      i := i + 1;
    }
    assert entries[..i] == entries;
  }

  /**
   * Every job pairs a `.urdf` with a `.stl` taken from one directory entry,
   * and there is at most one job per entry.
   */
  lemma {:induction false} JobsArePairs(entries: seq<Entry>)
    ensures |Jobs(entries)| <= |entries|
    ensures forall j :: j in Jobs(entries) ==>
              && Suffix(j.urdf) == ".urdf" && Suffix(j.stl) == ".stl"
              && exists e :: e in entries && e.isDir && e.name == j.dir && j.urdf in e.children && j.stl in e.children
    decreases |entries|
  {
    if entries != [] {
      var init := entries[..|entries| - 1];
      var e := entries[|entries| - 1];
      JobsArePairs(init);
      assert forall x :: x in init ==> x in entries;
      forall j | j in JobFor(e)
        ensures && Suffix(j.urdf) == ".urdf" && Suffix(j.stl) == ".stl"
                && j.urdf in e.children && j.stl in e.children
      {
        var iu :| LastWith(e.children, ".urdf", iu) && e.children[iu] == j.urdf;
        var ix :| LastWith(e.children, ".stl", ix) && e.children[ix] == j.stl;
        ModelSuffixes(j.urdf);
        ModelSuffixes(j.stl);
      }
    }
  }

  /** A directory holding a `.urdf` and a `.stl` file always gets a job. */
  lemma DirectoryWithBothIsPaired(e: Entry, iu: int, ix: int)
    requires e.isDir
    requires 0 <= iu < |e.children| && Suffix(e.children[iu]) == ".urdf"
    requires 0 <= ix < |e.children| && Suffix(e.children[ix]) == ".stl"
    ensures |JobFor(e)| == 1 && JobFor(e)[0].dir == e.name
  {
    ModelSuffixes(e.children[iu]);
    ModelSuffixes(e.children[ix]);
  }
}
