# us-ggg gas-giant converter — Dafny model

`us-ggg` is a one-file command-line tool for a space game. `convert` takes an
image and a `.ubox` file, which is a renamed zip holding a `body.json`. It
samples one column of the image. Each pixel becomes an `RGBA(r, g, b, a)`
string, one band per row. The bands replace the `GasGiant.Colors` array of the
first `AppearanceComponent` in `body.json`. The tool then writes a new archive:
raw copies of every other entry, then the patched `body.json`. In overwrite
mode it writes `TEMPUBOX.ubox` first and copies that file over the original.
`check` prints a verdict based on the image's size.

This project models the decisions inside `main`. Every I/O step is a parameter
or a plain value.

- `Outcomes`: `Option` and `Result`.
- `Bytes`: the 8-bit byte shared by image channels and stored archive data.
- `Json`: serde_json's `Value`. `KeyIndex`/`Lookup`/`Get` model `Value::get`
  (first member with the name). `Update` models assignment through `get_mut`:
  the member is replaced in place and no member is added.
- `Raster`: the decoded image as width, height and a colour per (column, row).
  `Pixels` is the enumeration done by `pixels()`: row by row, left to right.
  `AtColumn` is the `filter(|p| p.0 == pos)`. `Bands` is the new `Colors` array.
- `BodyPatch`: the loop over `Components`. It stops at the first
  `AppearanceComponent` and clears and refills its colours. Every `expect` is a
  distinct `PatchError`.
- `Repack`: the whole convert decision. It gives either the error that stops
  the run, or the plan of the file it writes: path, overwrite flag and entries
  in order.
- `Validity`: the three-way verdict of `check`.

Facts about the code that the model keeps:
- `check` prints nothing for an image that is one column wide and at most
  16384 rows tall (src/main.rs:139-144). It prints "would (most likely) be a
  valid gas giant" only when the width is not 1. So `Validity.Check` has three
  verdicts: `TooManyBands`, `ProbablyValid` and `Silent`.
- In `convert`, a column index outside the image is not an error
  (src/main.rs:86). The filter keeps no pixel, so `Colors` becomes empty.
- Only `check` applies the 16384-band limit (src/main.rs:137). `convert` does
  not. `Validity.CheckBoundsBands` links the two commands.
- Only the first `AppearanceComponent` is patched (src/main.rs:70-97). Later
  ones are left alone. A component before it with no `$type` aborts the run.

## Model

| member | source | states |
|---|---|---|
| Json.KeyIndex | src/main.rs:71 | `get` finds the first member with the key, if there is one, and finds nothing exactly when no member has that name |
| Json.Update | src/main.rs:74-84 | writing through `get_mut` keeps the member names, gives the key its new value when it exists, and leaves every other key's value as it was |
| Json.UpdateTwice | src/main.rs:84-94 | a second write to the same member erases every trace of the first one |
| Raster.PixelsRowMajor | src/main.rs:86 | `pixels()` yields width × height items, and column x of row y comes at position y·width + x |
| Raster.AtColumnConcat | src/main.rs:86 | the column filter distributes over concatenation, so kept pixels stay in enumeration order |
| Raster.ColumnOfRow | src/main.rs:86 | each row adds exactly its pixel in column `pos` to the filtered stream, or nothing when `pos` is outside the row |
| Raster.ColumnOfRows | src/main.rs:86 | the filtered stream has one pixel per row, in increasing row order, when `pos < width`, and is empty otherwise |
| Raster.Bands | src/main.rs:86-94 | the new `Colors` has `height` entries when `pos < width` and none otherwise; entry y is the token of pixel (pos, y) |
| BodyPatch.SetColors | src/main.rs:74-94 | a missing `GasGiant`, a `GasGiant` that is not an object, a missing `Colors` and a `Colors` that is not an array each give their own error, in that order; the rewrite succeeds exactly when none of these happens, and then `Colors` equals the bands and nothing else in the component changes |
| BodyPatch.PatchFrom | src/main.rs:70-98 | the component loop, from any starting component, never changes how many components there are |
| BodyPatch.PatchComponents | src/main.rs:61-98 | the loop succeeds exactly when it stops at a component that has a colour array, and then replaces that component with its rewrite, leaving the rest of the array as it was |
| BodyPatch.SkipNonMatching | src/main.rs:70-71 | the loop moves past components whose `$type` exists but is not "AppearanceComponent" |
| BodyPatch.FirstMatchRewritten | src/main.rs:70-97 | only the first matching component is rewritten, and every other component is kept, including later matches; the outcome is that component's rewrite or its error |
| BodyPatch.UntypedBeforeMatchFails | src/main.rs:70-71 | a component with no `$type` before any match aborts with `TypeMissing` at its index, even if a later component would match |
| BodyPatch.NoAppearanceFails | src/main.rs:69-103 | with no "AppearanceComponent" the patch fails; the error is `AppearanceNotFound` exactly when every component has a `$type` |
| BodyPatch.FindFrom | src/main.rs:70-72 | finds the component where the loop stops, exactly when there is one |
| BodyPatch.PatchBody | src/main.rs:61-103 | a root that is not an object, a missing `Components` and a `Components` that is not an array each give their own error; otherwise the loop's error is the edit's error. The edit succeeds exactly when the document has a colour array to rewrite at the first match; afterwards that colour array reads back as the bands |
| BodyPatch.PatchChangesOnlyColors | src/main.rs:61-94 | nothing else changes: root member names and all members other than `Components` stay; `Components` keeps its length and every component except the first match; in that match only `GasGiant.Colors` differs |
| BodyPatch.SetColorsTwice | src/main.rs:84-94 | rewriting an already rewritten component gives the same result as rewriting the original: the last bands win |
| BodyPatch.PatchComponentsTwice | src/main.rs:70-97 | running the loop over an array it already patched gives the same result as running it over the original array |
| BodyPatch.PatchLastWins | src/main.rs:84-94 | `clear()` discards the old colours: patching a patched document gives the same result as patching the original, so patching twice with the same bands equals patching once |
| Repack.ByName | src/main.rs:58 | `by_name` finds an entry with that name exactly when the archive lists the name |
| Repack.Kept | src/main.rs:110-121 | the copy loop copies at most as many entries as the archive lists, and none of the copies is named `body.json` |
| Repack.OutputEntries | src/main.rs:110-122 | the new archive ends with the freshly written `body.json`; its names are the source's names plus `body.json`, and `body.json` occurs exactly once |
| Repack.ByNameFindsListed | src/main.rs:118-119 | in a listing that names each file once, `by_name` on a listed name returns exactly that listed entry |
| Repack.KeptUnique | src/main.rs:110-121 | copies taken from a listing that names each file once also name each file once |
| Repack.KeptConcat | src/main.rs:110-121 | the copy loop keeps source order |
| Repack.KeptCounts | src/main.rs:118-119 | every entry other than `body.json` is copied with its name and stored bytes unchanged; `body.json` is not copied |
| Repack.KeptNames | src/main.rs:110-121 | the copies carry exactly the source's entry names other than `body.json` |
| Repack.OutputNames | src/main.rs:58-122 | when the source has a `body.json` and names each file once, the new archive has the same set of names, names each file once and has as many entries as the source |
| Repack.Convert | src/main.rs:55-130 | a missing `body.json` stops the run with `BodyMissing`, one that does not parse with `BodyNotJson`, and a failed patch with that patch's error. A run gives a plan exactly when `body.json` exists, parses and has a colour array to rewrite. The plan lists the raw copies and then one `body.json`, which holds the patched document whose colours read back as the bands. Overwrite mode is chosen exactly when no new name is given, and the file written is then `TEMPUBOX.ubox` |
| Repack.NoAppearanceNoOutput | src/main.rs:101-107 | without an "AppearanceComponent" the run stops with a patch error before any file is created |
| Validity.Check | src/main.rs:137-144 | height above 16384 gives "too many bands" with the height; otherwise a width other than 1 gives "probably valid"; otherwise nothing is printed |
| Validity.CheckBoundsBands | src/main.rs:137-138 | if `check` does not reject the image, `convert` gives at most 16384 bands for any column; if it rejects the image, every column inside it gives more |

## Left out

- Image decoding (`image` crate): the image is given as width, height and a
  colour function.
- Token text: `{:.3}` formatting of `channel as f32 / 255.0` is floating point,
  so the token is a parameter `tok` of the four channel bytes.
- Zip reading and writing (`zip` crate, `raw_copy_file`, compression): entries
  are (name, stored bytes) pairs. The archive is the list the reader's
  `file_names()` yields. The reader indexes entries by name, so the list names
  each file once: `Repack.UniqueNames`, required by `Convert`. "Source order"
  is that list's order.
- JSON parsing and serialisation (serde_json): parameters `read` and `write`.
  Object members are an ordered list looked up by first occurrence. serde's
  map never holds a name twice.
- File-system effects: opening the source, `File::create`, `fs::copy`,
  `fs::remove_file`, and the debug dump to the file `a`. The plan records
  which file is written and whether it then replaces the original.
- Failures of those effects (missing or unreadable archive, failure to reopen
  it, unwritable output) are not modelled as errors.
- Overwrite mode with a source archive that is itself named `TEMPUBOX.ubox`
  is not modelled. That path depends on file-system behaviour.
- Two other name clashes are not modelled. In both, `Convert` still returns a
  plan that the program does not carry out:
  - a new name equal to the source's own path: `File::create`
    (src/main.rs:107) empties the source before it is reopened at :112-115;
  - a new name of `a`: the debug dump at :132 then overwrites the new archive
    with the JSON text.
- `expect` panics and `bail!` both end the process with a failure status. The
  model only tells them apart by their error values.
- Command-line parsing (clap) and the `print` command's coloured banner:
  user interface only.
- Integer widths: `pos`, width and height are `u32` in the source and `nat`
  here. The model does no arithmetic on them that could wrap.
