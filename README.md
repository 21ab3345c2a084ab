# Redaction of detection images

This project models `ImageHandler` from `redact_forms/redact.py`, the
file-system event handler of the redaction pipeline. The handler sees a new
file appear in the watched folder. It decides whether the file is an image
to process. It finds the image's label file, which holds one
`class_id x_center y_center width height` line per detection. It blacks out
the box of every well-formed line in the image and saves the result under a
`redacted_` name in the output folder.

The model is organised by component:

- `Options`: the `Option` datatype.
- `PathOps`: the `posixpath` operations the handler uses: `basename`,
  `splitext` and `join`, plus `str.endswith` and substring search.
- `Tokens`: `str.strip()` and `str.split()` with no arguments, over the
  characters `str.isspace` accepts.
- `Numbers`: `float()` applied to one token.
- `Labels`: one label line unpacked into a `Detection`.
- `Geometry`: the box arithmetic (`int()` truncation, `//` floor division)
  and how numpy resolves the bounds of the slice `image[y1:y2, x1:x2]`.
- `Redaction`: the pixels of the image.
  - A specification function `Redacted` folds the boxes over one pixel.
  - `RedactedIsUnion` proves that the fold is the union of the boxes.
  - `FillSlice` is the in-place slice assignment on an `array2<Pixel>`.
  - `RedactLines` is the loop over the label lines, proved against
    `Redacted`.
- `Handler`: the dispatch filter, the label and output paths, and the
  `ImageHandler` class.

The label folder's contents are a parameter: a map from a path to the lines
of that file. The existence check becomes map membership. The decoded image
is the `array2<Pixel>` passed in; rows are `shape[0]` and columns are
`shape[1]`. `cv2.imread` with its default flag always decodes to three
channels in BGR order, so a `Pixel` is three bytes. `ProcessImage` returns
the path the image would be written to.

`float()` of a token is modelled on exact reals. A mantissa with an exponent
is scaled by `Shift`, which multiplies or divides by ten once per unit of the
exponent; `ShiftIsScale` proves it equal to multiplying by the power of ten.

What `redact.py` does not do, the model does not do either:

- it does not choose lines by class: every well-formed line is blacked out,
  whatever its class id (`ClassIdIgnored`);
- it does not require a number of detections: once the label file exists the
  image is saved, even when no line is accepted (the first postcondition of
  `ProcessImage`), with every pixel unchanged
  (`NothingAcceptedChangesNothing`);
- it has no absolute-pixel mode: coordinates are always fractions of the
  image size;
- it does not clamp slice bounds to the image: they are resolved as numpy
  resolves them (see Findings).

## Model

| member | source | states |
|---|---|---|
| PathOps.RFind | redact_forms/redact.py:18 | `str.rfind` gives -1 or an index holding the character, with no later occurrence of it |
| PathOps.EndsWith | redact_forms/redact.py:17 | definition: `str.endswith` holds when the suffix is no longer than the string and equals its tail, compared character by character (so case-sensitively) |
| PathOps.Contains | redact_forms/redact.py:18 | `'redacted_' in name` holds exactly when the marker occurs at some position of the name |
| PathOps.Basename | redact_forms/redact.py:18 | `os.path.basename` is the longest suffix of the path without '/', and it starts just after a '/' or at the start |
| PathOps.SplitExt | redact_forms/redact.py:27 | `os.path.splitext` splits the path into a root and an extension that concatenate back to it; a non-empty extension is a dot followed by neither '.' nor '/' |
| PathOps.Join | redact_forms/redact.py:27 | `os.path.join(a, b)` is `b` when `b` is absolute, and otherwise starts with `a`, ends with `b`, with a '/' inserted between them exactly when `a` is non-empty and does not end in '/' |
| PathOps.BasenameOfJoin | redact_forms/redact.py:27 | joining a folder and a file name without '/' gives the folder, at most one '/', then the file name; taking the base name gives back the file name |
| PathOps.SplitExtOfLeadingDots | redact_forms/redact.py:27 | `splitext` of a name whose only dots before a dot-free extension are leading ones, such as ".png", returns the whole name and an empty extension |
| PathOps.SplitExtOfNamePlusExt | redact_forms/redact.py:27 | `splitext` of `stem.ext` returns `(stem, ".ext")` when the extension has no dot and the stem is not all dots |
| Tokens.Strip | redact_forms/redact.py:42 | `line.strip()` has no whitespace at either end and splits into the same tokens as the line |
| Tokens.Split | redact_forms/redact.py:42 | every token `split()` returns is non-empty and free of whitespace |
| Tokens.SplitUnwords | redact_forms/redact.py:42 | splitting words joined by single spaces returns exactly those words |
| Tokens.SplitSkipsLeadingSpace | redact_forms/redact.py:42 | leading whitespace does not change the tokens |
| Tokens.SplitSkipsTrailingSpace | redact_forms/redact.py:42 | trailing whitespace, including the line break `readlines` keeps, does not change the tokens |
| Numbers.ParseNumber | redact_forms/redact.py:42 | definition of `float()` on one token: an optional sign, then digits with at most one '.', at least one digit, optionally followed by 'e' or 'E' and a signed integer exponent; None wherever Python raises ValueError for such text |
| Numbers.FractionValue | redact_forms/redact.py:42 | the digits after the point contribute a value in [0, 1) |
| Numbers.ParseInteger | redact_forms/redact.py:42 | `float` of a string of digits is its decimal value |
| Numbers.ParseDecimal | redact_forms/redact.py:42 | `float("w.f")` is the whole part plus the fraction, and "3." and ".5" are accepted |
| Numbers.FractionValueIsRatio | redact_forms/redact.py:42 | the digits after the point denote their integer value divided by ten to the power of their count |
| Numbers.ParseWithExponent | redact_forms/redact.py:42 | "m" followed by 'e' or 'E' and an exponent "x" denotes the mantissa's value shifted by x decimal places |
| Numbers.ShiftIsScale | redact_forms/redact.py:42 | shifting by `e` decimal places multiplies by ten to the power `e`, for negative `e` as well |
| Numbers.ParseScientificExample | redact_forms/redact.py:42 | `float("2.5E2")` is 250 |
| Numbers.ParseNatToString | redact_forms/redact.py:42 | `float(str(n))` is `n` for every natural number |
| Numbers.ParseNegated | redact_forms/redact.py:42 | a leading '-' is accepted exactly when the unsigned token is, and negates its value |
| Numbers.RejectsForeignCharacter | redact_forms/redact.py:42 | a token with any character other than a digit, sign, '.', 'e' or 'E' is not a number in the model's grammar |
| Labels.ParseLine | redact_forms/redact.py:41-60 | a line is unpacked exactly when it has five tokens and all are numbers; the fields are those numbers in order; every other line is skipped |
| Labels.BlankLineSkipped | redact_forms/redact.py:41-60 | a blank line is skipped |
| Labels.ParseWords | redact_forms/redact.py:42 | five numeric words joined by spaces unpack to those five numbers |
| Labels.ParseLinesDifferingInClass | redact_forms/redact.py:42 | two lines that differ only in a numeric class id are accepted together and give the same coordinates |
| Geometry.Trunc | redact_forms/redact.py:45-48 | `int(x)` rounds toward zero: below `x` for a positive `x` and above it for a negative one, by less than 1 |
| Geometry.FloorDiv | redact_forms/redact.py:51-54 | `a // b` is the largest `q` with `b * q <= a` |
| Geometry.ToPixels | redact_forms/redact.py:45-48 | definition: a normalised coordinate times the axis length, truncated toward zero as `int()` does |
| Geometry.ToPixelsWithinAxis | redact_forms/redact.py:45-48 | a coordinate in [0, 1] lands on a pixel index in [0, size], namely the whole part of coordinate times size |
| Geometry.BoxOf | redact_forms/redact.py:45-54 | definition: centre and size scaled to pixels with `int()`, then `size // 2` on each side of the centre; the class id is not read |
| Geometry.BoxAroundCentre | redact_forms/redact.py:45-54 | the box lies symmetrically about the centre in pixels; for a non-negative size its corners are ordered and span the size rounded down to even; for a negative size they come out reversed |
| Geometry.ExtentAroundCentre | redact_forms/redact.py:51-54 | the corners lie symmetrically about the centre; for a non-negative size they are ordered and span the size rounded down to even; for a negative size they come out reversed |
| Geometry.BoxIgnoresClass | redact_forms/redact.py:42-54 | the class id plays no part in a detection's box |
| Geometry.SliceBound | redact_forms/redact.py:57 | a resolved slice bound never exceeds the axis length |
| Geometry.InSlice | redact_forms/redact.py:57 | definition: an index is reached when it lies between the start and the stop after numpy has resolved both bounds |
| Geometry.SliceSelects | redact_forms/redact.py:57 | a slice reaches exactly the positions at or after its start and before its stop, reading a negative bound from the end, and never outside the axis |
| Geometry.InRegion | redact_forms/redact.py:57 | definition: `image[y1:y2, x1:x2]` reaches a pixel when the row slice reaches its row and the column slice its column |
| Geometry.ClampedSliceIsIntersection | redact_forms/redact.py:57 | with clamped bounds a slice reaches exactly the intersection of `[start, stop)` with the axis |
| Geometry.RegionsAgreeInsideImage | redact_forms/redact.py:57 | without negative bounds, numpy's reading and the clamped reading select the same pixels |
| Geometry.LeftEdgeBoxIsNotRedacted | redact_forms/redact.py:45-57 | on a 100-wide image, the line `0 0.05 0.5 0.2 0.2` gives the box [-5, 15); numpy selects no pixel of it, while the clamped reading selects columns 0 to 14 |
| Redaction.LineRegion | redact_forms/redact.py:41-57 | definition: a line that unpacks gives the box of its detection; a line that raises ValueError gives None |
| Redaction.Redacted | redact_forms/redact.py:39-60 | definition: a pixel after the lines' boxes are applied in file order: black when the last box reaches it, else as the earlier boxes left it |
| Redaction.Regions | redact_forms/redact.py:39-60 | each label line, in order, gives its box, or None when it is skipped |
| Redaction.RedactedIsUnion | redact_forms/redact.py:39-60 | after the loop a pixel is black exactly when some accepted line's box covers it, and otherwise keeps its value |
| Redaction.RedactionIgnoresOrder | redact_forms/redact.py:39-57 | reordering the lines of the label file gives the same image |
| Redaction.RedactionIdempotent | redact_forms/redact.py:39-57 | applying the same label file twice gives the same image as applying it once |
| Redaction.SkippedLineHasNoEffect | redact_forms/redact.py:58-60 | a skipped line leaves the result as if it were absent from the file |
| Redaction.NothingAcceptedChangesNothing | redact_forms/redact.py:39-60 | a label file with no accepted line, an empty one included, leaves every pixel unchanged |
| Redaction.ClassIdIgnored | redact_forms/redact.py:42 | any two numeric class ids in front of the same four coordinates give the same region |
| Redaction.RegionOfLinesDifferingInClass | redact_forms/redact.py:42-57 | two lines whose tokens differ only in a numeric class id black out the same region |
| Redaction.FillSlice | redact_forms/redact.py:57 | `image[y1:y2, x1:x2] = (0, 0, 0)` blacks out exactly the pixels the slice reaches and changes no other pixel |
| Redaction.RedactLine | redact_forms/redact.py:41-60 | one iteration blacks out the line's box when the line unpacks, and changes nothing when it is skipped |
| Redaction.RedactLines | redact_forms/redact.py:39-60 | after the loop every pixel is as `Redacted` gives for the line boxes in file order |
| Handler.HasImageExtension | redact_forms/redact.py:17 | definition: the path ends in ".jpg", ".jpeg" or ".png", case-sensitively |
| Handler.Dispatches | redact_forms/redact.py:15-20 | definition: `on_created` goes on to process the file exactly when the event is not a directory, the path has an image extension and its base name does not contain "redacted_" |
| Handler.ExtensionIsCaseSensitive | redact_forms/redact.py:17 | "bus.JPG" is not dispatched, because the extension test is case-sensitive |
| Handler.MarkerInFolderNameIgnored | redact_forms/redact.py:18 | only the file name is searched for the marker: "redacted_/bus.png" is dispatched |
| Handler.Stem | redact_forms/redact.py:27 | the stem of the image name has no '/' |
| Handler.LabelPath | redact_forms/redact.py:27 | the label path lies directly in the label folder (the folder, at most one '/', then the file name), and its file name is the image's stem plus ".txt" |
| Handler.LabelPathIgnoresFolder | redact_forms/redact.py:27 | the folder the image is in does not affect where its label is looked for |
| Handler.LabelPathReplacesExtension | redact_forms/redact.py:27 | the label of `folder/stem.ext` is `labelFolder/stem.txt`: only the last extension is replaced |
| Handler.OutputPath | redact_forms/redact.py:63 | the output lies directly in the output folder (the folder, at most one '/', then the file name), under the image's file name with "redacted_" in front |
| Handler.OutputIsNeverDispatched | redact_forms/redact.py:63 | a file the handler writes is never dispatched when it shows up as a new file, because the marker test on line 18 rejects it |
| Handler.ImageHandler.constructor | redact_forms/redact.py:8-11 | the handler keeps the three folders it is given |
| Handler.ImageHandler.ProcessImage | redact_forms/redact.py:25-67 | when the label file exists, the image is redacted by its lines and saved under the output path; otherwise nothing is changed or saved |
| Handler.ImageHandler.OnCreated | redact_forms/redact.py:13-23 | directories, non-image files and files whose name contains "redacted_" are ignored; any other file is processed; a path it saves is never dispatched again |

## Left out

- `start_monitoring` (`redact_forms/redact.py:69-81`) and the `__main__` block (83-97). They start the watchdog observer, sleep in a loop and create folders. All of that is threads, time and I/O. The observer is modelled only as calls to `OnCreated`.
- `cv2.imread` and `cv2.imwrite` are not modelled. The decoded image is the caller's `array2<Pixel>`, and writing it is the returned path.
- `imread` returns None for an unreadable image, and the handler then crashes. When some label line unpacks, the crash is reading `image.shape` at line 45. When no line unpacks, or the label file is empty, it is `cv2.imwrite` at line 64, which raises `cv2.error` for an empty image. Either way nothing is saved. Neither crash is modelled.
- Reading the label file is not modelled. `open`/`readlines` is a lookup in the `labelFiles` map, and `os.path.exists` is membership in it.
- The `print` calls are not modelled.
- Numbers.ParseNumber: models `float()` only on an optional sign, digits with at most one point, and an optional exponent. Python's `float` also accepts "nan", "inf" and "infinity" in any case, underscores between digits such as "1_0", and decimal digits of other scripts such as "٣". The model treats all of these as not numbers.
- Numbers.RejectsForeignCharacter: holds for the model's grammar only. Python's `float` accepts some tokens with other characters ("nan", "inf", "infinity", "1_0", "٣"), so for those it does not raise ValueError.
- Labels.ParseLine: because of the gap above, it skips some lines the handler accepts. What happens depends on the field:
  - The class id, the first token, goes through `float` but never through `int()`. With a class id of "nan", "inf", "1_0" or "٣", Python accepts the line and blacks out its box, while the model skips the line.
  - A "nan" coordinate makes `int()` raise ValueError, so the line is skipped in both.
  - An "inf" coordinate makes `int()` raise OverflowError, which the handler does not catch. The model skips the line instead of stopping.
  - A coordinate whose value, or whose product with the axis length, lies beyond the double range (about 1.8e308, as in "1e400") becomes inf in Python. `int()` then raises the same uncaught OverflowError and nothing is saved. The model reads the token as an exact real, computes a huge box and blacks out the part numpy's slice reaches.
  - A coordinate written "1_0" or with non-ASCII digits is accepted by Python and skipped by the model.
- Numbers.ParseNumber: values are exact reals, not IEEE doubles. The rounding of the parse and of `x * shape` is not modelled.
- Tokens.IsSpace: models the whitespace characters of `str.isspace` by code point. Separators that `str.split` recognises only through Unicode properties outside that list are not covered.
- PathOps.Join: models `posixpath.join` with two arguments only, which is all the handler uses.
- The linear-regression scripts of the repository are not part of this model.

## Findings

| source | as written | input that shows it | evidently intended | confidence | as-written member | corrected member |
|---|---|---|---|---|---|---|
| redact_forms/redact.py:57 | `image[y1:y2, x1:x2]` with `x1 = x_center - width // 2`. When a box crosses the left or top border, `x1` or `y1` is negative, and numpy counts a negative bound from the far end. | A 100 x 100 image and the line `0 0.05 0.5 0.2 0.2` give the box x in [-5, 15). The slice `[-5:15]` is `[95:15]`, which is empty, so the object at the left border is not blacked out at all. | The part of the box inside the image, columns 0 to 14, is blacked out: the bounds are clamped to the image. | medium; not executed | Geometry.LeftEdgeBoxIsNotRedacted | Geometry.ClampedSliceIsIntersection |

`ProcessImage` and `RedactLines` keep the behaviour as written, because they
model `redact.py`. The corrected reading is `InClampedSlice` and
`InClampedRegion` in `Geometry`. `RegionsAgreeInsideImage` proves that the two
readings differ only for boxes that cross the top or left border.
