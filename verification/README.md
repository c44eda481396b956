# images2pdf in Dafny

A model of `images2pdf.py`, a command-line tool that turns picture files into a
PDF document with one picture per A5 page. The model covers the decisions the
script makes itself; the work done by PIL, reportlab, pypdf and the file
system is abstracted away.

- **Discovery** (`Discovery`): `list_images` as a pure function over a snapshot of
  the file system. Each input path comes with the node it resolves to: `Missing`,
  `File` (with the format sniffer's answer), `Dir` (with its listing, in order) or
  `Other`. The generator becomes a `Stream`: the paths it yields, and whether it then
  raised. Within the modelled snapshot it raises in one place, the "." / ".." branch,
  because `os.listdir` fails on a path that is not a directory; unreadable files and
  directories are not part of the snapshot. A reference traversal (`WalkInputs`) lists
  every existing entry in visiting order. Discovery is shown to yield a prefix of the
  image filter of that walk, and all of it unless it raised. By the definition of
  `Visit`, the only stream that raises is the one for that branch, and it is shown
  never to fire on a snapshot whose "." and ".." paths name directories and whose listings hold
  only real names.
- **Path names** (`PathNames`): the parts of Python's `posixpath` the tool depends on:
  `basename`, two-argument `join` and `splitext`. `splitext` gets an independent
  characterisation: the extension starts at the last dot of the final component,
  and leading dots do not count.
- **Orientation** (`Orientation`): the EXIF orientation table (3 → 180°, 6 → 270°,
  8 → 90°, anything else → 0°). It is checked against the EXIF meaning of the four
  rotation-only orientation values. Picture sizes change under quarter turns with
  the canvas expanded.
- **Layout** (`Layout`): the drawing box and its centring on the page, over exact
  reals. The A5 page is 148 mm × 210 mm in points.
- **Document and driver** (`Document`, `Cli`): the writer's pages as a sequence.
  `insert_image_page` appends a blank page, fetches page `ix` and merges the
  rendering onto it. The command line checks the output extension first, then
  directories without `-r`, and only then opens the output and appends one page per
  discovered picture.

Line 24 lists a directory without qualifying the names, but its test is an `elif`
under `os.path.isdir` (images2pdf.py:21-24). A "." directory therefore takes line
22's branch with qualified paths, and line 24 is reached only for an existing
non-directory, where `os.listdir` raises.

## Model

| member | source | states |
|---|---|---|
| PathNames.BaseName | images2pdf.py:23 | the base name has no separator, is a suffix of the path, and is preceded by a separator when shorter than the path |
| PathNames.Join | images2pdf.py:22 | joining a listing name (non-empty, no separator, not "." or "..") onto a directory gives a path that starts with the directory and whose base name is that name |
| PathNames.SplitExt | images2pdf.py:78 | root plus extension is the whole path; the extension is empty or one dot followed by neither dots nor separators; a non-empty extension leaves a final component that is not all dots |
| PathNames.ExtensionIff | images2pdf.py:78 | a path has extension `e` exactly when it ends in `e` and the final component of what remains has a non-dot character (both directions) |
| PathNames.ExtensionOfStem | images2pdf.py:78 | a stem whose final component is not all dots, followed by a dot and no further dots or separators, has exactly that suffix as its extension |
| PathNames.PdfExtensionIff | images2pdf.py:78 | the output name passes the test exactly when it ends in lower-case ".pdf" after a final component that is not all dots (so "out.PDF", ".pdf" and "dir/..pdf" fail) |
| Discovery.ListImages | images2pdf.py:14-24 | the walk over the inputs in order; it can raise only with `-r`, and without `-r` it yields at most one path per input |
| Discovery.Visit | images2pdf.py:15-24 | one input: a missing path yields nothing and does not raise; it can raise only with `-r`; without `-r` it yields its own path or nothing |
| Discovery.ListChildren | images2pdf.py:20-22 | the recursive call on a directory; it can raise only with `-r` |
| Discovery.Qualify | images2pdf.py:22 | the recursive call's argument has one input per listing entry; for a well-formed listing each input's path starts with the directory path and has the entry's name as its base name |
| Discovery.ImagePaths | images2pdf.py:16-19 | reference filter: a path is in the result exactly when some entry with that path exists, is a regular file and sniffs as png, jpeg, jpg, bmp, gif, webp or avif |
| Discovery.NonRecursiveIsFilter | images2pdf.py:15-19 | without `-r`, discovery never raises and yields exactly the image inputs, in input order; missing paths, directories and non-images add nothing |
| Discovery.ListImagesAppend | images2pdf.py:15-24 | discovery over `a + b` is discovery over `a` followed by discovery over `b`, so earlier inputs' paths come first, and nothing of `b` is reached once `a` raised |
| Discovery.ListChildrenIsListImages | images2pdf.py:20-22 | the recursion on a directory listing equals `list_images` over the joined paths |
| Discovery.RecursiveDirectory | images2pdf.py:20-22 | with `-r`, a directory contributes exactly discovery over its joined listing, in listing order |
| Discovery.ListImagesApproximatesWalk | images2pdf.py:14-24 | discovery yields a prefix of the image filter of the walk, and all of it unless it raised |
| Discovery.VisitApproximatesWalk | images2pdf.py:15-24 | the same for one input and the entries below it |
| Discovery.ListChildrenApproximatesWalk | images2pdf.py:20-22 | the same for a directory listing |
| Discovery.CoherentNeverRaises | images2pdf.py:20-24 | on a modelled snapshot where "." and ".." name directories or nothing, and listings hold only real names, discovery never raises: the line 23-24 branch is dead |
| Discovery.VisitNeverRaises | images2pdf.py:16-24 | the same for one coherent input |
| Discovery.ListChildrenNeverRaises | images2pdf.py:21-22 | the same for a well-formed listing: a joined listing name is never "." or ".." |
| Discovery.ListImagesIsWalkFilter | images2pdf.py:14-24 | on a coherent snapshot, discovery yields exactly the images of the walk, at every depth, in walk order |
| Discovery.YieldedAreImages | images2pdf.py:15-22 | every yielded path, at any depth, is the path of a reached entry that exists, is a regular file and has a supported format |
| Discovery.WalkNodeUnder | images2pdf.py:22 | every entry reached from a path has that path as a prefix |
| Discovery.WalkListingUnderDir | images2pdf.py:22 | every entry reached below a directory has the directory path as a prefix |
| Discovery.DirectoryYieldsUnderIt | images2pdf.py:20-22 | with `-r`, every path a directory contributes starts with the directory path |
| Orientation.CorrectionAngle | images2pdf.py:30-39 | the rotation is a quarter-turn multiple, and it is non-zero exactly when an EXIF block with an orientation tag of 3, 6 or 8 is present |
| Orientation.CorrectionUndoesStoredTurn | images2pdf.py:33-39 | for any EXIF block whose orientation tag is one of the rotation-only values 1, 3, 6 and 8, whatever other tags it holds, the stored turn plus the correction is a whole number of turns, so the picture ends upright |
| Orientation.Rotate | images2pdf.py:35-39 | rotation with an expanded canvas keeps the two side lengths and the area; an even number of quarter turns keeps the size, an odd one swaps the sides |
| Orientation.RotateCompose | images2pdf.py:35-39 | rotating by `a` then `b` gives the size of rotating by `a + b` |
| Orientation.RotateBack | images2pdf.py:37-39 | 270° followed by 90° gives back the original size |
| Layout.ContentBox | images2pdf.py:50-56 | the box is positive and has the picture's proportions; a portrait or square picture gets 5/6 of the page height, a landscape one 5/6 of the page width |
| Layout.Centre | images2pdf.py:58 | the left margin equals the right margin and the bottom margin equals the top margin |
| Layout.ContentBoxScaleFree | images2pdf.py:50-56 | the box depends only on the height-to-width ratio, not on the pixel count |
| Layout.OnPageIffFits | images2pdf.py:58 | a centred box lies on the page exactly when it is no larger than the page |
| Layout.ContentBoxFitsIff | images2pdf.py:50-58 | on an upright page the box fits exactly when the picture is landscape or its ratio is at least 5/6 of the page's height-to-width ratio (175/148 on A5) |
| Layout.LandscapeInsidePage | images2pdf.py:54-58 | a landscape picture on an upright page is drawn with positive margins on every side |
| Layout.SquarePictureOverflowsA5 | images2pdf.py:50-58 | a square picture on A5 gets a box 175 mm wide on the 148 mm page, placed 13.5 mm left of the edge |
| Layout.FittedBox | images2pdf.py:50-56 | corrected layout: the box has the picture's proportions, fits in 5/6 of the page both ways, and reaches 5/6 in one direction |
| Layout.FittedAgreesWhenContentFits | images2pdf.py:50-56 | wherever the box as written stays within 5/6 of the page, the corrected box is the same |
| Layout.PlacePicture | images2pdf.py:30-58 | the box drawn for a picture has the proportions of the picture after its orientation correction, is 5/6 of the A5 height when the turned picture is portrait or square and 5/6 of the A5 width when it is landscape, and is centred on the page |
| Document.InsertImagePage | images2pdf.py:64-67 | fetching page `ix` succeeds exactly when `ix` is at most the old page count; page `ix` keeps its size and its earlier layers and gets this picture on top; with `ix` equal to the old count the result is the old pages plus one A5 page carrying only this picture; with a smaller `ix` the picture lands on an earlier page and the new page stays blank |
| Cli.AppendPages | images2pdf.py:86-87 | every insertion finds its page (the index equals the page count), and the document ends with one page per picture carrying that picture, in order |
| Cli.Convert | images2pdf.py:82-90 | past both checks the output is opened; the run crashes exactly when discovery raised, a written document is one composed page per discovered path in order, and on a coherent modelled snapshot the document is written with one page per image the walk reaches |
| Cli.Run | images2pdf.py:78-92 | the run is refused for its extension exactly when the extension is not ".pdf"; it is refused for a directory without `-r` exactly when the extension is ".pdf", `-r` is absent and a positional path is a directory; the output is opened exactly when both checks pass; the run crashes exactly when discovery raised; a written document holds one page per discovered picture, in discovery order, and on a coherent modelled snapshot the model always writes it |

## Findings

| source | as written | input that shows it | evidently intended | confidence | as-written member | corrected member |
|---|---|---|---|---|---|---|
| images2pdf.py:50-58 | a portrait or square picture always gets 5/6 of the page height, whatever its width | a square picture (1000 × 1000 pixels) on A5: box 175 mm wide on a 148 mm page, drawn from x = -13.5 mm, so 13.5 mm is cut off on each side; the same for every ratio from 1 up to 175/148 | the largest box with the picture's proportions that fits within 5/6 of the page in both directions | medium, not executed | Layout.SquarePictureOverflowsA5 | Layout.FittedBox |

`Layout.ContentBox` and `Layout.PlacePicture` keep the layout as written. `Layout.FittedBox` is the corrected version, and `Layout.FittedAgreesWhenContentFits` shows the two agree wherever the written layout stays within 5/6 of the page.

## Left out

- Picture decoding, EXIF parsing and the pixel rotation (PIL) are not modelled. The EXIF block is an input, and a rotation only changes the picture's size.
- The format sniffer (`imghdr.what`) is not interpreted. Each file node records its answer. The model does not use the fact that the real sniffer never answers "jpg" or "avif".
- The temporary file (images2pdf.py:41-44, 62) is I/O. It is saved, read back for its size and deleted, so the model takes the picture's size directly.
- Drawing with reportlab, merging with pypdf and writing the file (images2pdf.py:58-67, 84-90) are foreign-library work. A page records only which renderings were merged onto it. `preserveAspectRatio` and `mask` have no effect on the model, because the box already has the picture's proportions.
- Cli.Run: assumes every discovered picture renders; decoding and I/O failures inside `insert_image_page` are not modelled, so "always gets written" holds for the model, not for the program. One such case comes from the source itself: discovery picks pictures by content, but the temporary file takes its suffix from the picture's name (images2pdf.py:41), so a picture whose name lacks an image extension is discovered and then fails when it is saved (images2pdf.py:43).
- Access-right and I/O errors outside `insert_image_page` are not modelled: `os.listdir` on an unreadable directory (images2pdf.py:22), the sniffer opening an unreadable file (images2pdf.py:18), and `open` of the output failing (images2pdf.py:82), for example when its parent directory is missing or it names a directory. The only crash modelled is the one raised by discovery's "." / ".." branch.
- Argument parsing (argparse) and exit statuses are not modelled. The parsed arguments are the input to `Cli.Run`.
- Floating-point rounding is not modelled: the ratio and the page lengths are exact reals.
- Symbolic links, cycles and a file system that changes during the run are not modelled. The snapshot is a finite tree, and every path comes already resolved to its node.
