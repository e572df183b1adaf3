# AutoBadge badge geometry and label, in Dafny

AutoBadge turns an uploaded portrait and a full name into a 512x512 badge image. The endpoint in `server.js`:

- crops a square around the detected face, or a centred square when no face is found;
- scales that square onto the badge canvas;
- writes a shortened form of the name ("Jane D.") in the bottom-left corner, on a translucent plate.

This project models the decisions in that handler as pure functions over exact values, and proves what they guarantee.

- `name_format.dfy` (module `NameFormat`) covers `formatName` and the JavaScript it relies on:
  - `String.prototype.trim`;
  - `String.prototype.split(/\s+/)`;
  - indexing the first character of a word.

  `IsSpace` is JavaScript's whitespace set. `trim` and the `\s` class share it: the WhiteSpace characters plus the LineTerminator characters.
- `split_pieces.dfy` (module `SplitPieces`) shows that `split(/\s+/)` loses nothing but the whitespace runs between its pieces.
- `crop_geometry.dfy` (module `CropGeometry`) covers:
  - the crop box, with a detection and without one;
  - how `drawImage` maps crop coordinates onto the 512-pixel canvas.
- `name_plate.dfy` (module `NamePlate`) covers the layout of the name tag: font size, text anchor and background plate. The canvas size and the measured text come in as parameters.

Two behaviours of the code are worth stating up front:

- `formatName` returns an empty or all-whitespace name as it is (`NameFormat.BlankNameUnchanged`). The handler turns away only the empty name (server.js:51-53), so an all-whitespace name reaches the badge unchanged.
- The crop around a face is not clamped to the image, so it can start at negative coordinates (`CropGeometry.FaceCropNotClamped`).

The handler has a single crop policy. The name plate is placed as if the whole measured text height stood above the baseline, while `fillText` draws the descent below it. So the plate sits the descent too high, and it covers the drawn text only while the descent is at most a fifth of the font size (`NamePlate.PlateCoversDrawnTextIff`).

## Model

| member | source | states |
|---|---|---|
| NameFormat.Trim | server.js:39 | the trimmed name is at most as long as the input and starts and ends with a non-whitespace character |
| NameFormat.TrimDropsEdgeWhitespace | server.js:39 | the trimmed name is a contiguous piece of the input, with only whitespace before and after it |
| NameFormat.TrimPadded | server.js:39 | trimming text that is already trimmed, padded with whitespace on both sides, gives back exactly that text |
| NameFormat.TrimTrimmed | server.js:39 | trimming is the identity on a string with no whitespace at either end |
| NameFormat.TrimAllSpace | server.js:39 | a string of whitespace only trims to the empty string |
| NameFormat.TrimStartIsSuffix | server.js:39 | removing leading whitespace leaves a suffix of the input |
| NameFormat.TrimEndIsPrefix | server.js:39 | removing trailing whitespace leaves a prefix of the input |
| NameFormat.TrimStartAfterSpace | server.js:39 | what leading-whitespace removal takes away is exactly the leading whitespace run |
| NameFormat.TrimEndBeforeSpace | server.js:39 | what trailing-whitespace removal takes away is exactly the trailing whitespace run |
| NameFormat.Split | server.js:39 | splitting on whitespace runs always yields at least one piece |
| NameFormat.SplitMoreThanOne | server.js:39-40 | there is more than one piece exactly when the string holds whitespace |
| NameFormat.SplitFirst | server.js:39-41 | the first piece is the longest whitespace-free prefix of the string |
| NameFormat.SplitLast | server.js:39-41 | the last piece is the longest whitespace-free suffix of the string |
| NameFormat.SplitPiecesHaveNoSpace | server.js:39 | no piece contains whitespace |
| NameFormat.SplitNoSpace | server.js:39 | a string without whitespace splits into itself alone |
| NameFormat.SplitTwoWords | server.js:39 | two whitespace-free words joined by one space split back into those two words |
| SplitPieces.SplitRebuilds | server.js:39 | the input is exactly its pieces with a non-empty run of whitespace put back between each two neighbours, and no middle piece is empty; with no piece holding whitespace, this fixes every piece |
| SplitPieces.MiddlePiecesNonEmpty | server.js:39 | a whitespace run is cut as a whole (the `+` of `/\s+/`), so only the first and the last piece can be empty |
| NameFormat.FirstWord | server.js:41 | the first word has no whitespace and ends at the end of the string or just before whitespace |
| NameFormat.LastWord | server.js:41 | the last word has no whitespace and starts at the start of the string or just after whitespace |
| NameFormat.FirstWordIsPrefix | server.js:41 | the first word is a prefix of the string |
| NameFormat.LastWordIsSuffix | server.js:41 | the last word is a suffix of the string |
| NameFormat.FirstWordUnique | server.js:41 | any whitespace-free prefix that ends at whitespace or at the end of the string is the first word |
| NameFormat.LastWordUnique | server.js:41 | any whitespace-free suffix that starts after whitespace or at the start of the string is the last word |
| NameFormat.LastWordAfterPrefix | server.js:41 | putting a prefix that ends in whitespace in front of a string does not change its last word |
| NameFormat.LastWordAfterRun | server.js:39-41 | the rest of the string after its first word and the whitespace run that follows has the same last word as the whole string |
| NameFormat.NoSpaceWord | server.js:41 | a whitespace-free string is its own first and last word |
| NameFormat.FormatName | server.js:38-44 | with whitespace inside the trimmed name, the label is its first word, a space, the first character of its last word (which exists) and a period; otherwise the label is the argument itself, untrimmed |
| NameFormat.LabelIsTwoWords | server.js:40-41 | the label of a name of two or more words splits into exactly the first word and "initial." — every middle word is dropped |
| NameFormat.TwoWordLabel | server.js:40-41 | "First Last" is labelled "First L." |
| NameFormat.OneWordUnchanged | server.js:43 | a single word with any whitespace around it is returned exactly as given, whitespace included |
| NameFormat.BlankNameUnchanged | server.js:39-43 | an empty or all-whitespace name is returned unchanged; the label never fails |
| NameFormat.TwoWordExample | server.js:38-44 | "Jane Doe" is labelled "Jane D." |
| NameFormat.MiddleWordsDroppedExample | server.js:38-44 | "  Mary   Jane   Watson  " is labelled "Mary W." |
| NameFormat.OneWordExample | server.js:43 | "Madonna" is labelled "Madonna" |
| NameFormat.PaddedOneWordExample | server.js:43 | " Cher " is labelled " Cher ", untrimmed |
| NameFormat.BlankExample | server.js:39-43 | "" and "   " are returned unchanged |
| CropGeometry.CropBox | server.js:66-87 | the crop is a square. With a face box: side 1.8 times the box's larger side, centred on the box centre. Without one: side the image's shorter dimension, centred in the image and inside it |
| CropGeometry.FaceCropPadsBox | server.js:69-76 | with a face box of non-negative size, the crop keeps a margin of 0.4 times the box's larger side on every side of the box, so it contains the box, strictly when the box has a positive side |
| CropGeometry.FaceCropInsideImageIff | server.js:72-77 | a face crop lies inside the image exactly when the box centre is at least 0.9 times the larger side from every image edge |
| CropGeometry.FaceCropNotClamped | server.js:72-77 | a 100-pixel box at the top-left corner of a 1000x1000 image gives the crop (-40, -40, 180, 180), which leaves the image |
| CropGeometry.FaceCropExample | server.js:68-77 | box (400, 300, 200, 200) in a 1000x1000 image gives crop (320, 220, 360, 360) |
| CropGeometry.CenterCropIsLargest | server.js:80-86 | no square inside the image is larger than the crop used when no face is found |
| CropGeometry.CenterCropMargins | server.js:80-86 | the faceless crop leaves equal margins left and right and above and below, and touches two opposite edges of the image |
| CropGeometry.CanvasX | server.js:94-104 | `drawImage` sends the crop's left edge to canvas x 0, its right edge to 512, and points in between into the canvas |
| CropGeometry.CanvasY | server.js:94-104 | `drawImage` sends the crop's top edge to canvas y 0, its bottom edge to 512, and points in between into the canvas |
| CropGeometry.FaceCentredOnBadge | server.js:66-104 | the centre of a detected face lands on the canvas centre (256, 256), and the face box keeps at least 512·0.4/1.8 pixels to every canvas edge |
| NamePlate.Layout | server.js:107-126 | font size is 0.08 of the canvas width. The anchor sits 0.05 of the width in from the left and bottom edges. The plate is 0.4 font sizes wider and taller than the text and is centred on the box the arithmetic assumes for the text: the whole text height above the baseline |
| NamePlate.PlateSurroundsText | server.js:110-126 | on a canvas of positive width the plate strictly contains the assumed text box (the text height above the anchor), with a padding of a fifth of the font size on each side |
| NamePlate.PlateCornerMargins | server.js:108-126 | the plate's left edge and bottom edge are both 0.034 of the canvas width from the canvas edges |
| NamePlate.PlateOnCanvasIff | server.js:108-126 | the plate lies on the canvas exactly when the text is at most 0.934 of the width wide and at most the height minus 0.066 of the width tall |
| NamePlate.PlateCoversDrawnTextIff | server.js:111-129 | for the text as `fillText` draws it (ascent above, descent below the baseline), the plate is centred horizontally but sits the descent too high. It contains the drawn text exactly when the descent is between minus and plus a fifth of the font size, strictly so on a canvas of positive width |
| NamePlate.DeepDescentExample | server.js:111-129 | on the 512x512 badge, text of width 100, ascent 30 and descent 10 is inside the plate as assumed, but the drawn text leaves it |
| NamePlate.BadgeTagExample | server.js:90-126 | on the 512x512 badge: font size 40.96, anchor (25.6, 486.4), plate from x 17.408 down to y 494.592, plate 16.384 wider than the text |

## Left out

- HTTP handling is not modelled: the Express routes, the `multer` upload, static files, the missing-name and missing-file response, the error responses and temporary-file removal. They move data and report status; they decide nothing about the badge.
- Face detection (the face-api models and `detectSingleFace`) is a foreign detector. Its result is the `Option<Rect>` parameter of `CropGeometry.CropBox`.
- Canvas rendering is not modelled: image loading, pixel resampling, `fillRect`, `fillText` and PNG encoding. Only the coordinates handed to `drawImage`, `fillRect` and `fillText` are modelled, together with where `drawImage` puts the crop and where `fillText` puts the text. The drawn text's horizontal extent is taken to be its advance width (`width`); the measured `actualBoundingBoxLeft` and `actualBoundingBoxRight` are not modelled. Text measurement (`measureText`) is the `TextMetrics` parameter of `NamePlate.Layout`.
- JavaScript numbers are IEEE doubles; the model computes with exact reals, so the results are exact rather than rounded.
- JavaScript strings are sequences of UTF-16 code units. The model treats them as sequences of characters, so for a last word that starts with a character outside the Basic Multilingual Plane, `NameFormat.FormatName` keeps the whole character where JavaScript keeps only its first surrogate.
- CropGeometry.CanvasX: requires a crop of positive width, and CanvasY one of positive height. `drawImage` with an empty source draws nothing, which the mapping does not describe.
- Nothing in the handler composes the three pieces beyond passing values along, so the model has no separate end-to-end function.
