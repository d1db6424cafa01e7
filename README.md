# Scene generation scripts, modelled in Dafny

This project models the logic of three batch scripts from a ROS scene-generation package.

- **`Sence.py`** is the scene controller:
  - the safe-position search that scatters obstacles around a target object;
  - the text patch that makes a spawned model dynamic;
  - the registry of spawned model names.
- **`add_inertial.py`** gives each object's URDF file an `<inertial>` block.
  - It first moves the XML declaration to the front of the file.
  - It estimates mass, centroid and inertia tensor from the mesh, with a bounding-box prism as the fallback.
  - It splices the block in after the first `</collision>`.
  - It pairs the `.urdf` and `.stl` files of each object directory.
- **`add_path.py`** rewrites URDF mesh references into `package://` URIs relative to the workspace `src` directory, and classifies references as rewritten or not.

## How the model is shaped

- **Shared modules.**
  - `common.dfy` holds the value types: `Option`, and `Vec3` with squared distance.
  - `text.dfy` models the Python string operations the scripts use: `find`, `rfind` of one character, `replace`, `startswith`, `endswith`, `in` and `join`.
- **Distances.** The source compares Euclidean distances. The model compares squared distances instead, with no square root:
  - `DistAtLeast(d2, r)` means `r <= sqrt(d2)`;
  - `DistAtMost(d2, r)` means `sqrt(d2) <= r`.
- **Inputs that replace I/O.** Randomness, service replies, the XML parser and the mesh library become inputs:
  - `draw(i)` is the i-th random candidate;
  - `reply(i)` is the delete service's i-th answer;
  - `success` is the spawn service's answer;
  - `parse` is the XML parser's view of a text;
  - a `Hull` record holds the mesh library's numbers for the convex hull.
- **Imperative parts stay imperative.**
  - The controller is a class with the two lists it mutates.
  - The search, the directory scans and the mesh loop are methods with loops.
  - The mesh loop rewrites an array in place.

### Behaviour of the code worth knowing

- **First valid candidate, not last.** In `find_safe_positions`, `found` is replaced by each valid candidate, and the guard `len(found) >= num_positions` runs before each draw. So the number of positions asked for decides which candidate comes back:
  - for `num_positions` from 1 to 3 (the default is 1), the search stops at the first valid candidate;
  - for `num_positions` above 3, it runs every attempt and keeps the last valid one;
  - for `num_positions` of 0 or less, it draws nothing.

  `FindSafePositions` states all three cases.
- **A second inertial run is a no-op only under conditions.** The patcher gets its idempotence from its skip tests. `SecondRunChangesNothing` proves it under two conditions:
  - the block contains no `?` and does not end in `<` (the printed block has no `?` and ends in `</inertial>`), so splicing it in can neither create an XML declaration nor move one;
  - the text's first `</collision>` closes a collision of the first link, and the parser then sees the spliced block as that link's inertial.

  Files with or without the declaration are both covered. When the first `</collision>` belongs to a later link, the code patches the file again on every run (`CollisionOutsideLinkRepatches`).

## Model

| member | source | states |
|---|---|---|
| `Text.Find` | src/scene_generation/scripts/add_inertial.py:16 | `find` returns -1 exactly when the pattern does not occur; otherwise it returns the lowest index where it occurs |
| `Text.LastIndexOf` | src/scene_generation/scripts/add_path.py:92 | `rfind` of one character returns -1 exactly when the character is absent; otherwise it returns an index holding it with none after it |
| `Text.ReplaceAllNoMatch` | src/scene_generation/scripts/Sence.py:52 | `replace` leaves text in which the pattern does not occur unchanged |
| `Text.ReplaceCharRemoves` | src/scene_generation/scripts/add_path.py:59 | replacing a character by a different one leaves no occurrence of it |
| `Sence.MinDist2` | src/scene_generation/scripts/Sence.py:130 | the nearest-object squared distance is at most every object's squared distance and equals one of them |
| `Sence.CheckObjectsMeans` | src/scene_generation/scripts/Sence.py:131-136 | the early-return loop accepts exactly when every object is at least `min_dist` away and `m_d <= max_dist` |
| `Sence.IsValidIffAcceptable` | src/scene_generation/scripts/Sence.py:123-136 | `is_valid` accepts exactly the candidates that lie in the box (both ends inclusive on every axis), are at least `min_dist` from every object, and are within `max_dist` of some object |
| `Sence.DistBoundsClash` | src/scene_generation/scripts/Sence.py:133 | no distance is both at least `min_dist` and at most a smaller `max_dist` |
| `Sence.NoCandidateWhenMaxBelowMin` | src/scene_generation/scripts/Sence.py:130-134 | with `max_dist < min_dist` no candidate is valid |
| `Sence.FindSafePositions` | src/scene_generation/scripts/Sence.py:138-152 | returns `[]` or one valid 3-element candidate, after at most `max_attempts` draws. It returns `[]` when `max_dist < min_dist`. For `num_positions` 1 to 3 it returns the first valid draw (or `[]` exactly when none of the attempts is valid). Above 3 it returns the last valid draw. At 0 or less it draws nothing |
| `Sence.ExampleSearchDistance` | src/scene_generation/scripts/Sence.py:123-136 | with one object at the origin, `min_dist` 0.1 and `max_dist` 0.5, an accepted candidate lies between 0.1 and 0.5 from the origin |
| `Sence.MakeDynamic` | src/scene_generation/scripts/Sence.py:52 | the text sent to the spawn service contains no `<static>true</static>`; text without one is sent unchanged |
| `Sence.NoStaticTrueAfterReplace` | src/scene_generation/scripts/Sence.py:52 | the left-to-right, non-overlapping replace cannot create a new `<static>true</static>` at any junction |
| `Sence.MakeDynamicIdempotent` | src/scene_generation/scripts/Sence.py:52 | making a model dynamic twice gives the same text as once |
| `Sence.Scene.constructor` | src/scene_generation/scripts/Sence.py:29-34 | the registry and the position list start empty |
| `Sence.Scene.SpawnObject` | src/scene_generation/scripts/Sence.py:52-59 | sends the dynamic text; appends exactly the model name when the service reports success, and nothing otherwise |
| `Sence.Scene.DeleteAllObjects` | src/scene_generation/scripts/Sence.py:108-119 | requests deletion of the registered names in order, up to and including the first one whose request fails with a service exception; the registry is emptied exactly when no request failed that way; a refused deletion is only logged |
| `Sence.FirstFailureStays` | src/scene_generation/scripts/Sence.py:111-118 | the first failing request among the first i+1 is the first failing one overall |
| `Sence.Scene.PlaceObjects` | src/scene_generation/scripts/Sence.py:176-186 | appends the drop position, then at most 5 obstacles. The obstacle at index j is the first valid draw, among the first 10000 of search j's stream, against all positions before index j; every earlier draw of that stream is invalid. If fewer than 5 were placed, none of the failing search's draws was valid |
| `Sence.PlacedAreAcceptable` | src/scene_generation/scripts/Sence.py:176-186 | every placed obstacle lies in the workspace, at least `min_dist` from every position before it, and within `max_dist` of one of them |
| `AddInertial.FixXmlFormat` | src/scene_generation/scripts/add_inertial.py:15-24 | the file is rewritten exactly when the declaration occurs but not at position 0; it is then rotated at the first occurrence, starts with the declaration, and keeps its length and its characters; otherwise it is unchanged |
| `AddInertial.FixXmlFormatIdempotent` | src/scene_generation/scripts/add_inertial.py:16-20 | a fixed file is not rewritten by a second fix |
| `AddInertial.FixedStartsWithDeclaration` | src/scene_generation/scripts/add_inertial.py:16-20 | whenever the declaration occurs, the fixed text starts with it |
| `AddInertial.ClampSize` | src/scene_generation/scripts/add_inertial.py:46 | every extent is at least 1e-6, and extents already that large are kept |
| `AddInertial.BoxVolume` | src/scene_generation/scripts/add_inertial.py:47 | the volume of a box with clamped extents is strictly positive |
| `AddInertial.GuardVolume` | src/scene_generation/scripts/add_inertial.py:40-59 | after the volume guard (hull below 1e-9 replaced by its bounding box at density 800) the mass is strictly positive |
| `AddInertial.BoxTensor` | src/scene_generation/scripts/add_inertial.py:68-82 | the box estimate is diagonal, with every diagonal entry at least 1e-7, and physically realisable for a non-negative mass |
| `AddInertial.CalculateInertialProperties` | src/scene_generation/scripts/add_inertial.py:32-89 | the mass is always positive and every diagonal entry is at least 1e-7; on an exception the result is exactly mass 0.1, centroid (0,0,0) and `diag(1e-3, 1e-3, 1e-3)` |
| `AddInertial.AllCloseImpliesSmallDiagonal` | src/scene_generation/scripts/add_inertial.py:66 | a tensor that passes `np.allclose(t, 0)` already has every diagonal entry below 1e-7, so the second test never decides alone |
| `AddInertial.PrismMomentsTriangle` | src/scene_generation/scripts/add_inertial.py:73-75 | the prism moments are non-negative and none exceeds the sum of the other two |
| `AddInertial.EstimatedTensorIsRealisable` | src/scene_generation/scripts/add_inertial.py:66-89 | when the box estimate or the default is used, the tensor is diagonal and realisable, and the box estimate keeps the mesh's mass and centroid |
| `AddInertial.DegenerateCubeExample` | src/scene_generation/scripts/add_inertial.py:40-82 | a mesh with no volume and a 0.1 m bounding cube gets mass 0.8 and diagonal moments 1/750 |
| `AddInertial.ZeroTensorCubeExample` | src/scene_generation/scripts/add_inertial.py:65-82 | a 0.1 m cube of mass 0.8 with a zero tensor gets diagonal moments 1/750 |
| `AddInertial.InsertAfterFirstCollision` | src/scene_generation/scripts/add_inertial.py:131-153 | no result exactly when `</collision>` is absent; otherwise the result is the text up to the end of the first `</collision>`, then a newline unless the rest already starts with one, then the block, then the unchanged rest |
| `AddInertial.AddInertialToUrdf` | src/scene_generation/scripts/add_inertial.py:95-157 | the file is patched exactly when the parsed first link exists, has no inertial, and the fixed text has a `</collision>`; a skipped file keeps its fixed text |
| `AddInertial.InsertKeepsDeclaration` | src/scene_generation/scripts/add_inertial.py:137-153 | inserting the block keeps a leading declaration in front |
| `AddInertial.InsertCreatesNoDeclaration` | src/scene_generation/scripts/add_inertial.py:137-153 | splicing a block without `?` that does not end in `<` after `</collision>` creates no XML declaration in a text that had none |
| `AddInertial.PatchedNeedsNoFix` | src/scene_generation/scripts/add_inertial.py:97-153 | a file patched with such a block passes the next declaration fix unchanged, with or without a declaration |
| `AddInertial.SecondRunChangesNothing` | src/scene_generation/scripts/add_inertial.py:97-134 | a second run leaves the file from the first run unchanged, whether or not it has a declaration, provided the block has no `?` and does not end in `<`, and the first `</collision>` closes a collision of the first link that the parser then sees as holding the block |
| `AddInertial.CollisionOutsideLinkRepatches` | src/scene_generation/scripts/add_inertial.py:108-153 | when the parser still finds no inertial in the first link after the splice (the first `</collision>` was in a later link), a second run patches again and the file grows by the new block |
| `AddInertial.SuffixIsExtension` | src/scene_generation/scripts/add_inertial.py:184-186 | pathlib's suffix equals a one-dot extension exactly when the name ends with it and is longer |
| `AddInertial.ModelSuffixes` | src/scene_generation/scripts/add_inertial.py:184-186 | the `.urdf` and `.stl` suffix tests are the ends-with tests the scan uses |
| `AddInertial.ExtensionsExclusive` | src/scene_generation/scripts/add_inertial.py:184-187 | no name is both a `.urdf` and a `.stl` file, so the `elif` does not hide a match |
| `AddInertial.LastWithExtension` | src/scene_generation/scripts/add_inertial.py:183-187 | no result exactly when no name has the extension; otherwise the result is a name with it and no later name has it |
| `AddInertial.FindModelFiles` | src/scene_generation/scripts/add_inertial.py:180-187 | the scan ends with the last `.urdf` and the last `.stl` of the directory |
| `AddInertial.ProcessYcbDataset` | src/scene_generation/scripts/add_inertial.py:177-192 | the pairs handed to the patcher are, in order, one per directory entry holding both kinds of file |
| `AddInertial.JobsArePairs` | src/scene_generation/scripts/add_inertial.py:177-192 | every pair is a `.urdf` and a `.stl` taken from the same directory entry, and there are no more pairs than entries |
| `AddInertial.DirectoryWithBothIsPaired` | src/scene_generation/scripts/add_inertial.py:190-192 | a directory holding a `.urdf` and a `.stl` always produces exactly one pair |
| `AddPath.CleanXmlContent` | src/scene_generation/scripts/add_path.py:5-20 | text without `<?xml` is returned unchanged; otherwise the result is the suffix from the first `<?xml` |
| `AddPath.CleanXmlContentIdempotent` | src/scene_generation/scripts/add_path.py:11-20 | cleaning twice is cleaning once |
| `AddPath.CleanXmlContentIsSuffix` | src/scene_generation/scripts/add_path.py:15-18 | the cleaned text is a suffix of the input |
| `AddPath.Basename` | src/scene_generation/scripts/add_path.py:92 | the basename contains no `/` and ends the path; it is either the whole path or preceded by a `/` |
| `AddPath.BasenameKeepsStl` | src/scene_generation/scripts/add_path.py:90-92 | the basename of a `.stl` path ends in `.stl` |
| `AddPath.BasenameAfterSlash` | src/scene_generation/scripts/add_path.py:92-94 | the basename of `prefix/b`, where `b` has no slash, is `b` |
| `AddPath.RewriteMesh` | src/scene_generation/scripts/add_path.py:87-96 | a `.stl` reference stays a `.stl` reference, now starting with `package://<rel>/` and naming the same file (same basename); a missing filename or any other one is left unchanged |
| `AddPath.PackageUriKeepsFile` | src/scene_generation/scripts/add_path.py:90-96 | a rewritten reference starts with `package://`, still ends in `.stl`, and has the same basename |
| `AddPath.RewriteMeshIdempotent` | src/scene_generation/scripts/add_path.py:90-96 | for a fixed package path, rewriting twice is rewriting once |
| `AddPath.RewriteAll` | src/scene_generation/scripts/add_path.py:86-96 | the document after the rewrite has the same number of references, each one rewritten by the rule, and as many `.stl` references as before |
| `AddPath.UpdateMeshes` | src/scene_generation/scripts/add_path.py:84-98 | the mesh loop rewrites every element in place by the rule, and `updated_count` is the number of `.stl` references |
| `AddPath.RewriteAllIdempotent` | src/scene_generation/scripts/add_path.py:86-96 | rewriting a whole document twice is rewriting it once |
| `AddPath.RelativePackagePath` | src/scene_generation/scripts/add_path.py:52-59 | a package path exists exactly when the workspace root is a strict ancestor of the directory, and it contains no backslash |
| `AddPath.RootItselfIsSkipped` | src/scene_generation/scripts/add_path.py:52-54 | a file directly in the workspace root is skipped |
| `AddPath.RelativePathWithoutBackslash` | src/scene_generation/scripts/add_path.py:57-59 | when the components have no backslash, the package path is the components below the root joined by `/` |
| `AddPath.ParseWithRetry` | src/scene_generation/scripts/add_path.py:70-82 | a successful first parse is kept; after a failure, only a text starting with a byte-order mark gets a second chance |
| `AddPath.UpdateUrdfMeshPaths` | src/scene_generation/scripts/add_path.py:39-116 | each file the walk yields gets its specified outcome: not a `.urdf`, outside the workspace, unparseable, or rewritten; `processed_files` counts the rewritten files and `updated_meshes` sums their rewritten references |
| `AddPath.UpdatedFileUsesPackageUris` | src/scene_generation/scripts/add_path.py:84-110 | in a processed file, every `.stl` reference becomes the `package://` URI of the file's package path, and every other reference is kept |
| `AddPath.RewrittenIsReportedModified` | src/scene_generation/scripts/add_path.py:139-144 | the classifier (`Classify`: a missing or empty filename is not reported, any other is modified exactly when it contains `package://`) reports every rewritten `.stl` reference as modified and every other reference as it did before the rewrite |
| `AddPath.RewriteExample` | src/scene_generation/scripts/add_path.py:90-96 | `some/local/path/foo.stl` under the package path `bar` becomes `package://bar/foo.stl` |

## Left out

- **ROS plumbing** (node start-up, waiting for services, service proxies, sleeps, logging). It is external I/O; service replies are inputs.
- **`apply_force_towards_target`**. It is floating-point normalisation around two service calls.
- **`select_random_mesh_models`, `random.sample`, the spawn loop that names the objects, orientations and `object_center`.** These are filesystem listing, randomness and float averaging.
- **`round(..., 4)` of the random candidates.** Decimal rounding is not modelled; the candidates are whatever `draw` yields.
- **Square roots.** The model compares squared distances. This is exact for the non-negative squared distances that occur.
- **trimesh** (loading, convex hull, volume, centre of mass, moment of inertia, `creation.box`). These numbers are inputs in the `Hull` record.
  - The box made for a degenerate hull is taken to have the closed-form prism inertia.
  - The assignments to `mesh.volume` and `mesh.center_mass` are taken to succeed. If the mesh library refused one, the exception would lead to the default triple.
- **Floating-point arithmetic.** The real-number formulas are exact.
- **`np.allclose(t, 0)`.** Its relative tolerance contributes nothing against a zero matrix, so it is modelled exactly by the absolute tolerance 1e-8 alone.
- **The inertial block's `.6f` formatting.** It is the input function `format`.
- **XML parsing and serialisation.**
  - In `add_inertial.py` the parser's view is an `Outline`: whether there is a link, whether the first link has an inertial, and whether the text's first `</collision>` closes a collision of that link.
  - In `add_path.py` a document is the sequence of its mesh `filename` attributes.
  - The text written back (a new declaration plus the serialised tree) is not modelled; the rewritten attribute sequence stands for it.
- **The filesystem.** `os.walk`, `Path.iterdir`, `Path.absolute`, reads and writes are not modelled.
  - Directory listings are input sequences, and paths are sequences of components.
  - Read errors and other exceptions, which the scripts catch and log, are not modelled beyond the parse failures above.
- **`verify_urdf_changes`.** Only its per-attribute classifier is modelled. The walk and its printing are I/O.
- SecondRunChangesNothing: does not promise idempotence for every file, because the code does not deliver it. If the first link has only a `<visual>` and a later link holds the first `<collision>`, the block lands in that later link, the first link still has no inertial, and every run inserts one more block (`CollisionOutsideLinkRepatches`).
- **Windows paths.** Paths follow POSIX rules: `Basename` splits only at `/`, as `os.path.basename` does on POSIX; Windows' extra split at `\` is not modelled.
