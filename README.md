# spectra core, modelled in Dafny

This project models three parts of the spectra demo engine and proves
properties about them.

- **Editing timeline** (`edit.dfy`, module `Edit`).
  - A `Cut` slices a clip between an input and an output time and is placed on a track at an instance time. It is active on the half-open window `[inst, inst + (out - in))`.
  - A `Track` is an append-only list of cuts.
  - A `Timeline` gathers tracks and a list of `TrackCross` regions. Each region tells which cuts are active over one stretch of time.
  - The source declares the regions but never builds them. The model adds the builder their doc comment describes:
    - collect a start and an end event per cut;
    - sort them by time, end before start at equal times;
    - sweep them with a running set of active cuts.
  - It also adds the `cuts_at` lookup as a binary search over the regions.
  - Both are proved equal to a brute-force scan of every cut's window.
- **Shading-language attribute parsers** (`ssl.dfy`, module `Ssl`).
  - `PipelineAttribute::from_str` splits at the first `=`, trims both sides, dispatches on the key and parses a `u32`. The model includes Rust's `trim` on Unicode white space and `u32::from_str`.
  - `GeometryYieldExpression::from_str` recognises `yieldprim` and `yield <expr>`.
  - The unit tests of both appear as lemmas.
- **Vertex de-duplication for OBJ models** (`model.dfy`, module `Model`).
  - `convert_geometry` turns every (position, texture, normal) corner into a key and keeps a map from keys to output indices. It emits one interleaved vertex per new key and one index per corner.
  - The method is proved equal to a reference definition: one vertex per distinct key in first-use order, and for each corner the position of its key among them.
  - `interleave_vertex` is a function parameter.

`common.dfy` (module `Common`) holds `Option`, `Result` and Rust's `u32`.

Times are `real`. A clip is an opaque handle. A cut in a region is named by
its track index and its position in that track (`CutRef`), and a region's
cuts are a set.

## Model

| member | source | states |
|---|---|---|
| Edit.NewCut | src/edit.rs:30-37 | the four fields are stored unchanged, with no validation; a cut is active only if `in < out`, and only from its instance time on |
| Edit.Track.constructor | src/edit.rs:47-51 | a new track has no cuts |
| Edit.Track.AddCut | src/edit.rs:53-55 | the track's cuts become the old cuts followed by the new one |
| Edit.Track.FromCuts | src/edit.rs:58-64 | the track holds the given cuts in the given order |
| Edit.Timeline.constructor | src/edit.rs:74-79 | a new timeline has no tracks and no regions |
| Edit.Timeline.AddTrack | src/edit.rs:81-83 | the tracks become the old tracks followed by the new one; the regions are untouched |
| Edit.Timeline.FromTracks | src/edit.rs:86-93 | the timeline holds the given tracks in order and no regions |
| Edit.ActiveCuts | src/edit.rs:19-27 | a cut is in the brute-force set at `t` exactly when it exists and `inst <= t < inst + (out - in)` |
| Edit.RegionsDisjoint | src/edit.rs:95-107 | of two regions of an index, the earlier ends no later than the later begins, and no time lies in both |
| Edit.CollectEvents | src/edit.rs:95-98 | the events are exactly the start and end events of the cuts with a non-empty window |
| Edit.InsertEvent | src/edit.rs:95-98 | inserting into a sorted run gives a sorted run holding one element more |
| Edit.SortEvents | src/edit.rs:95-98 | the result is sorted by time with ends before starts at equal times, and is a permutation of the input |
| Edit.PrefixActive | src/edit.rs:95-98 | between two consecutive sorted events, the cuts started and not yet ended are exactly the active cuts |
| Edit.SweepEvents | src/edit.rs:95-107 | the regions are non-empty and ascending, each holds exactly the cuts active all over it, every time with an active cut lies in a region, and touching neighbours hold different cuts |
| Edit.BuildRegionIndex | src/edit.rs:95-107 | the built regions form a minimal region index of the tracks |
| Edit.Timeline.BuildCrosses | src/edit.rs:68-72 | the tracks are unchanged and the regions become a minimal region index of them |
| Edit.RegionIndexUnique | src/edit.rs:95-98 | two minimal region indexes of the same tracks are equal, so rebuilding from the same tracks gives the same regions |
| Edit.ScenarioIndex | src/edit.rs:95-98 | for a cut on `[0, 2)` and one on `[1, 4)`, the only minimal index is `[0, 1)` with the first, `[1, 2)` with both, `[2, 4)` with the second |
| Edit.ScenarioLookups | src/edit.rs:95-98 | in that scenario the cuts at 0.5, 1.5, 3.0, 4.0 and -1.0 are the first, both, the second, none and none |
| Edit.BoundaryCut | src/edit.rs:19-27 | a cut sliced from 0 to 1 and placed at 2 is active at 2 and not at 3 |
| Edit.DegenerateCut | src/edit.rs:19-27 | a cut whose output time is not after its input time is in no region of an index |
| Edit.Timeline.CutsAt | src/edit.rs:95-98 | over a region index, the lookup returns exactly the brute-force set of cuts active at `t`, empty in gaps |
| Ssl.TrimStart | src/ssl.rs:76-83 | Rust's `trim_start`: drops exactly the leading white space, so the result is a suffix that is empty or starts with a non-white-space character |
| Ssl.TrimEnd | src/ssl.rs:76-83 | Rust's `trim_end`: drops exactly the trailing white space, so the result is a prefix that is empty or ends with a non-white-space character |
| Ssl.Trim | src/ssl.rs:76-83 | Rust's `trim`: the result is an infix of the input with only white space around it and none at either of its ends |
| Ssl.Find | src/ssl.rs:69 | the index of the first occurrence of the character, or none exactly when it does not occur |
| Ssl.ParseU32 | src/ssl.rs:79 | a text parses exactly when it is an optional `+` followed by a non-empty run of ASCII digits denoting a number below 2^32, and it parses to that number |
| Ssl.ParseU32Examples | src/ssl.rs:79 | `+3`, `03` and `+007` parse, leading zeros and sign included; the empty text, a lone `+`, `-3` and `3 ` do not |
| Ssl.ParseU32Decimal | src/ssl.rs:79 | the decimal text of every `u32` parses back to it |
| Ssl.ParsePipelineAttribute | src/ssl.rs:68-89 | fails with "cannot find =" exactly when the input has no `=`; a success splits at the first `=`, with a trimmed key naming the attribute and a trimmed non-empty value that is its number |
| Ssl.ParseKeyValue | src/ssl.rs:70-88 | with at most the `=` on the value side it fails with "no value"; a success means the trimmed key names the attribute and the trimmed text after `=` is its number |
| Ssl.SplitAtFirstEquals | src/ssl.rs:69-70 | the input is split at its first `=` |
| Ssl.NoEqualsSign | src/ssl.rs:69 | an input without `=` fails with "cannot find =" |
| Ssl.NothingAfterEqualsSign | src/ssl.rs:72-74 | when the first `=` ends the input, the parse fails with "no value" |
| Ssl.ParseAssignment | src/ssl.rs:76-86 | a key that trims to an attribute name, then `=`, then a value that trims to a `u32`, parses to that attribute |
| Ssl.ParsePaddedAttribute | src/ssl.rs:76-86 | any whitespace around the key and around the value is ignored |
| Ssl.ParsePrintedAttribute | src/ssl.rs:68-89 | the text `<key> = <n>` of every attribute parses back to it |
| Ssl.ParsedAttributeShape | src/ssl.rs:76-86 | conversely, a successful parse means the trimmed key names the attribute and the trimmed value is its number |
| Ssl.WhitespaceValue | src/ssl.rs:78-79 | a value of white space only passes the length check but fails to parse |
| Ssl.NotANumber | src/ssl.rs:78-85 | a known key whose value does not trim to a `u32` fails with "unable to parse geometry_shader_max_vertices, found " or "unable to parse geometry_shader_invokation, found ", followed by the trimmed value |
| Ssl.UnknownKey | src/ssl.rs:87 | any other key fails with "expected a valid pipeline attribute, found " and the untrimmed key |
| Ssl.PipelineAttributeExamples | src/ssl.rs:111-129 | the eight inputs of the unit test give the asserted results |
| Ssl.ParseGeometryYield | src/ssl.rs:95-106 | a success is a parsable expression whose text is the input; a failure carries "expected yield, found " and the input |
| Ssl.ParseGeometryYieldExact | src/ssl.rs:95-106 | the parser accepts exactly `yieldprim` and `yield ` followed by a non-empty expression, kept verbatim |
| Ssl.GeometryYieldError | src/ssl.rs:102-104 | every other input fails with "expected yield, found " and the input |
| Ssl.GeometryYieldExamples | src/ssl.rs:132-139 | the inputs of the unit test, and a bare `yield `, give the expected results |
| Model.VtnIndexToKey | src/model.rs:143-148 | a corner becomes a key exactly when it has a texture and a normal index; the key is reordered to (position, normal, texture); otherwise `UnsupportedVertex` |
| Model.KeyRoundTrip | src/model.rs:143-148 | every key is the key of the corner it stands for |
| Model.CreateKeys | src/model.rs:122-140 | a primitive gives one key per corner, in corner order, exactly when every corner is supported; otherwise `UnsupportedVertex` |
| Model.Gather | src/model.rs:94-95 | the walk over primitives with `try!` collects at most one key per corner, and fails only on a non-empty input |
| Model.GatherOutcome | src/model.rs:93-96 | the walk over primitives fails exactly when some primitive fails; otherwise it yields one key per corner of all primitives, the j-th key standing for the j-th corner |
| Model.GatherPrefix | src/model.rs:93-96 | walking a prefix reaches a prefix of the keys, and a failure ends the walk |
| Model.VertexCount | src/model.rs:98-112 | the number of vertices equals the number of distinct keys |
| Model.IndicesResolve | src/model.rs:101-110 | with at most 2^32 vertices, every index is below the vertex count and names the vertex interleaved from its own key |
| Model.IndexReuse | src/model.rs:98-112 | a repeated key reuses the index of its first use and adds no vertex; a new key gets the previous vertex count as its index |
| Model.AddKeys | src/model.rs:97-113 | after the keys of one primitive, the buffers are the reference ones for all keys seen and the map holds each seen key with its index |
| Model.ConvertGeometry | src/model.rs:89-118 | fails with `UnsupportedVertex` exactly when a primitive fails; otherwise gives one vertex per distinct key in first-use order and, per corner, the `u32` index of its key |

## Left out

- The region builder and the `cuts_at` lookup do not exist in the source. `TrackCross` is declared and `crosses` is only ever initialised empty. The model's builder and lookup follow the region index that the doc comment of `TrackCross` describes.
- The regions' cuts are modelled as a set of (track, position) names rather than an ordered list of references.
- The O(1) lookup claimed by the doc comment is a cost bound and is not modelled. The lookup is a binary search.
- `Clip` is an opaque handle. Its boxed closure that returns a GPU texture is not modelled.
- `Time` is `real`. f32 rounding is not modelled.
- Edit.NewCut: adds no validation of `in <= out`, as in the code. The source does not check it; here a cut sliced backwards has an empty window, gives no events, and is never in a region.
- Edit.Timeline.CutsAt: requires the regions to be a region index. The source has no lookup and no "not built" state to fail on after `add_track`.
- Ssl.Find: returns a character index where Rust's `str::find` returns a byte index. They differ when non-ASCII text precedes the `=`. The split, the `value.len() <= 1` check and the `"yield ".len()` check still agree, because `=` and `yield ` are ASCII.
- The `ShaderModule` and `SSL` syntax types in `src/ssl.rs` are declared but not used by the parsers, and are not modelled.
- The f64-to-f32 conversions inside `interleave_vertex` are not modelled. `interleave_vertex` is a parameter of `Model.ConvertGeometry`.
- Model.ConvertGeometry: requires every key it reaches to be within the position, normal and texture arrays. The source indexes them directly and would panic otherwise.
- The `Model` and `Part` wrappers, the commented-out OBJ loader and hot reloading in `src/model.rs` are not modelled. The same goes for the rest of the repository: camera math, windowing, GPU pipelines and resource caches.
