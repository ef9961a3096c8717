# Pippa maps in Dafny

A model of `Pippa::Map` from pippa, a Ruby library that draws dots of a given
area on a map image. A dot can be placed by pixel, by latitude and longitude,
or by US zip code. The model leaves out the image library and keeps:

- the map's state: its style, its queue of pending dots, the batches drawn so
  far, its image format and its lazily built projection (`map.dfy`,
  class `Pippa.Map`);
- `render`, a flush of the pending dots. It sorts them by descending area and
  turns each into a point or a square whose edge is `dot_side` (`dots.dfy`);
- the style setters. Each one flushes the queue before it stores its value;
- the `to_xxx` and `write_xxx` calls, checked through `conversion_to_format`
  (`formats.dfy`);
- the catalog fold of `info_from_file` and `map_names` (`catalog.dfy`);
- `set_projection`: an `ALBER` projection, a projection of unknown kind, and
  the bounding-box projection over exact reals (`projection.dfy`);
- the zip-code table: the CSV header normaliser, the float converter for
  `lat`/`long`, the rule that only rows with both coordinates enter, and the
  `add_at_zip` skip rule (`zipcodes.dfy`, `map.dfy`);
- the string primitives these need: ASCII case mapping, line splitting for
  the regex anchors, and `Float()` on decimal literals (`text.dfy`).

A Ruby exception becomes an `Err` or `Fail` value that carries an `Error`
(`common.dfy`). The mutating methods state the map's whole new state. The
class invariant `Valid()` holds a ghost record (`queuedUnder`) of the style
current when each pending dot was queued. Because every setter flushes
first, all entries of that record equal the current style once the map has
an image. Together with `Render`'s contract this gives the library's
promise: a dot is drawn in the style that was current when it was queued.

Points where lib/pippa.rb may surprise a reader, and which the model follows:

- Setters always flush. There is no check for an unchanged value.
- `sort!` is not stable. The contracts promise some descending-area order
  and never the order of ties.
- The half-side is `(0.5 * side).round`, which is `(side + 1) / 2` for a
  non-negative side.
- `x` and `y` are passed to the drawing calls as given; only the side is
  rounded.
- A negative area is not validated up front. It reaches `Math.sqrt`, which
  raises. The model reports this as `NegativeArea` and leaves the queue
  sorted and nothing drawn.

## Model

| member | source | states |
|---|---|---|
| Text.Lines | lib/pippa.rb:324 | a name splits into at least one line, no line holds a newline, and the lines joined with newlines give back the name, so `^`/`$` can match on any line and only there |
| Text.ParseFloat | lib/pippa.rb:286-289 | `Float()` on a decimal literal; None where Ruby raises. Which strings parse is stated by `Text.DecimalLiteralAccepted`, and the value by `Text.IntegerLiteral`, `Text.FractionLiteral`, `Text.NegatedLiteral` and `Text.PlusLiteral` |
| Text.UnsignedLiteralAccepted | lib/pippa.rb:286-289 | without a sign, parsing succeeds if and only if the string is digits, optionally followed by a '.' and at least one more digit |
| Text.DecimalLiteralAccepted | lib/pippa.rb:286-289 | parsing succeeds if and only if the string is an optional sign followed by such an unsigned literal |
| Text.FractionLiteral | lib/pippa.rb:286-289 | `w.f` parses to the value of the digits `w` plus the value of the digits `f` over ten to the number of digits of `f` |
| Text.PlusLiteral | lib/pippa.rb:286-289 | a leading `+` changes nothing |
| Text.NegativeFractionExample | lib/pippa.rb:286-289 | the catalog's `-99.9` parses to -99.9 |
| Text.IntegerLiteral | lib/pippa.rb:286-289 | a literal of digits only parses to the number its digits spell |
| Text.LinesOfOneLine | lib/pippa.rb:324 | a name without newlines is a single line |
| Text.NegatedLiteral | lib/pippa.rb:306 | `Float("-s")` parses exactly when `Float(s)` does, and gives its negation |
| Catalog.AddLine | lib/pippa.rb:337-340 | one line of the catalog: its fields are filed under its lower-cased tag and its name, creating the tag's table when missing; its effect is stated by `Catalog.InfoKeys` and `Catalog.InfoLastLineWins` |
| Catalog.FoldInfo | lib/pippa.rb:336-341 | the catalog of a whole file, or the failure of its first blank line; stated by `Catalog.FoldInfoSucceeds`, `Catalog.FoldInfoReportsFirstBlank`, `Catalog.FailurePersists`, `Catalog.InfoTags`, `Catalog.InfoKeys` and `Catalog.InfoLastLineWins` |
| Catalog.InfoFromLines | lib/pippa.rb:333-344 | the reading loop returns the fold of the lines: each line files its fields under its lower-cased tag and its name, or the first blank line fails |
| Catalog.FailurePersists | lib/pippa.rb:336-338 | once a line fails, reading the rest of the file ends in that same failure |
| Catalog.FoldInfoSucceeds | lib/pippa.rb:336-341 | reading succeeds if and only if no line is blank |
| Catalog.FoldInfoReportsFirstBlank | lib/pippa.rb:337-338 | the failure names the first blank line |
| Catalog.InfoTags | lib/pippa.rb:337-339 | a tag has a table in the catalog if and only if some line carries that lower-cased tag |
| Catalog.InfoKeys | lib/pippa.rb:337-340 | a tag and name are in the catalog if and only if some line carries that lower-cased tag and that name |
| Catalog.InfoLastLineWins | lib/pippa.rb:340 | the fields of the last line with a given tag and name are the ones kept |
| Catalog.MapNames | lib/pippa.rb:15-17 | the keys of the catalog's `map` table, or None when it has none; stated by `Catalog.MapNamesOfCatalog` and `Catalog.MapNamesAbsent` |
| Catalog.MapNamesAbsent | lib/pippa.rb:15-17 | `map_names` raises (None) if and only if no line's tag lower-cases to `map` |
| Catalog.MapNamesOfCatalog | lib/pippa.rb:15-17 | `map_names` holds exactly the names on the catalog's `map` lines, whatever the case of the tag |
| Catalog.CatalogExample | lib/pippa.rb:330-332 | the two sample lines give exactly a `map` table for `World` and a `projection` table for `USA50` |
| Formats.ConversionToFormat | lib/pippa.rb:323-328 | a returned format is always one the table lists with a `*` flag; exactly which names convert, on any number of lines, is stated by `Formats.ConversionOfName` |
| Formats.FirstLineSuffix | lib/pippa.rb:324 | what `(.*)` captures in `/^prefix_(.*)$/`; stated by `Formats.FirstLineSuffixIsFirst` |
| Formats.FirstLineSuffixIsFirst | lib/pippa.rb:324 | the leftmost match: the capture is the rest of the first line that begins with the lead, and there is none if and only if no line begins with it |
| Formats.ConversionOfName | lib/pippa.rb:323-328 | for any name, the result is `f` if and only if some line begins with `prefix_`, no earlier line does, `f` is the upper-cased rest of that line and the table gives `f` a `*` flag |
| Formats.ConversionOfPlainName | lib/pippa.rb:323-328 | for a one-line name, the result is `f` if and only if the name is `prefix_suffix`, `f` is the upper-cased suffix and the table gives `f` a `*` flag |
| Formats.ConversionRejects | lib/pippa.rb:326-327 | `prefix_suffix` gives nil exactly when the upper-cased suffix is missing from the table or its flags lack `*` |
| Formats.LaterLineMatches | lib/pippa.rb:324 | with line anchors, `"x\nto_png"` still converts to `PNG` |
| Dots.RoundedRoot | lib/pippa.rb:317 | the result `r` is the rounded square root: either 0 or `(r - 1/2)^2 <= q`, and `q < (r + 1/2)^2` |
| Dots.RoundedRootUnique | lib/pippa.rb:317 | only one natural number satisfies the rounding bounds |
| Dots.RoundedRootMonotone | lib/pippa.rb:317 | a larger area never has a smaller rounded root |
| Dots.DotSide | lib/pippa.rb:316-318 | the side is `point_size * sqrt(area)` rounded to the nearest integer, halves away from zero: its sign is the point size's and its absolute value meets the rounding bounds on `point_size^2 * area` |
| Dots.DotSideOfFractionalArea | lib/pippa.rb:317 | area 4.41 at point size 1 gives side 2 |
| Dots.DotSideOfZeroArea | lib/pippa.rb:317 | area 0, the default, gives side 0 at any point size |
| Dots.DotSideOfSquareArea | lib/pippa.rb:317 | area `k*k` at point size 1 gives side `k` |
| Dots.DotSideMonotone | lib/pippa.rb:316-318 | at a non-negative point size, a larger area never gives a smaller side |
| Dots.HalfSide | lib/pippa.rb:184 | `(0.5 * side).round` is half the side rounded up: `2h - 1 <= side <= 2h` |
| Dots.DotShape | lib/pippa.rb:180-188 | side at most 1 gives `Point(x, y)`; otherwise a square whose top-left corner is the dot less the half-side `h` on each axis, with edge exactly `side` on both axes, that strictly contains the dot and is centred within half a pixel of it |
| Dots.SortByArea | lib/pippa.rb:177 | `sort!` by descending area, as an insertion sort; stated by `Dots.SortByAreaOrders` |
| Dots.InsertByAreaOrders | lib/pippa.rb:177 | inserting a dot into a descending-area sequence keeps it descending and adds exactly that dot |
| Dots.SortByAreaOrders | lib/pippa.rb:177 | the sort is a permutation of the pending dots in non-increasing area order |
| Dots.SameDotsSameSigns | lib/pippa.rb:177-180 | reordering the dots does not change whether some area is negative |
| Dots.ShapesConcat | lib/pippa.rb:179-189 | the primitives of two runs of dots are the primitives of the first run followed by those of the second |
| Dots.ShapesRemove | lib/pippa.rb:179-189 | taking one dot out of the queue takes exactly its primitive out of the drawn primitives |
| Dots.PermutedShapes | lib/pippa.rb:177-189 | reordering the dots reorders their primitives and changes nothing else: the multisets of primitives are equal |
| Dots.DrawnShapesCoverDots | lib/pippa.rb:177-189 | a batch holds exactly the primitives of the pending dots, with multiplicity: as many primitives as dots, the same multiset as the dots' primitives in queue order, every dot drawn and every primitive from a dot |
| Dots.DrawnSingleDot | lib/pippa.rb:177-189 | a single pending dot is drawn as exactly its own primitive |
| Projection.Project | lib/pippa.rb:291-311 | `@lat_lon_to_xy.call(lat, lon)`: the Albers formulas for an `ALBER` projection, and `[(lon - top_lon) * lon_scale, (top_lat - lat) * lat_scale]` for the box; stated by `Projection.BoxSpansImage` |
| Projection.ParseFields | lib/pippa.rb:286-289 | parsing the fields at the given indices succeeds exactly when every index is in range and its field parses, and then gives one value per index, in order, each the parsed field |
| Projection.BuildProjection | lib/pippa.rb:282-313 | a configured projection can only give an Albers projection and no configured projection can only give the box; with neither a projection nor a map line the build fails with no map information. The branches are stated by `Projection.AlbersFromProjectionLine`, `Projection.AlbersBadNumber`, `Projection.UnknownKindFails`, `Projection.BoxFromMapLine`, `Projection.BoxBadNumber` and `Projection.BoxDegenerate` |
| Projection.AlbersFromProjectionLine | lib/pippa.rb:285-289 | an `ALBER` line whose seven fields parse gives the Albers projection with field 1 as the radius, fields 2 to 5 as the standard parallels and the origin latitude and longitude, field 6 as the false easting and field 7 as the false northing |
| Projection.AlbersBadNumber | lib/pippa.rb:285-289 | an `ALBER` line fails with a bad number if and only if it has fewer than seven fields after the kind or one of fields 1 to 7 does not parse; otherwise it gives an Albers projection |
| Projection.UnknownKindFails | lib/pippa.rb:283-304 | a configured projection fails with an unknown kind if and only if its kind is not `ALBER`; it never falls back to the box |
| Projection.BoxBadNumber | lib/pippa.rb:306-308 | without a projection line the build fails with a bad number if and only if the `MAP` line has fewer than four fields after the image name or one of them does not parse |
| Projection.BoxDegenerate | lib/pippa.rb:306-308 | when the four `MAP` fields parse, the build fails as degenerate if and only if the top and bottom latitudes or the left and right longitudes are equal |
| Projection.BoxFromMapLine | lib/pippa.rb:306-308 | without a projection line the `MAP` fields give the box projection with scales `height / (top_lat - bot_lat)` and `width / (bot_lon - top_lon)` |
| Projection.BoxSpansImage | lib/pippa.rb:309-311 | the box projection maps the top-left corner to (0, 0) and the bottom-right corner to (width, height) |
| Projection.WorldCentre | lib/pippa.rb:306-311 | a 360x180 world map from corners 90/-180 and -90/180 sends (0, 0) to (180, 90) |
| Zipcodes.ReplaceColonPairs | lib/pippa.rb:353 | `gsub(/::/, '/')`, scanning left to right; stated by `Zipcodes.ReplaceColonPairsAtFirstPair`, `Zipcodes.ReplaceColonPairsKeeps` and `Zipcodes.ReplaceColonPairsLeavesNone` |
| Zipcodes.ReplaceColonPairsAtFirstPair | lib/pippa.rb:353 | the first pair of colons becomes `/`, the text before it is kept and the rest is rewritten in turn |
| Zipcodes.InsertSplits | lib/pippa.rb:354-355 | one of the two word-splitting `gsub!`s, inserting `_` where its pattern matches; stated by `Zipcodes.InsertSplitsLength`, `Zipcodes.InsertSplitsAtSplitPoint`, `Zipcodes.InsertSplitsPlain`, `Zipcodes.InsertSplitsKeeps` and `Zipcodes.InsertSplitsKeepsColonsApart` |
| Zipcodes.InsertSplitsLength | lib/pippa.rb:354-355 | the result is longer than the input by exactly the number of split points |
| Zipcodes.InsertSplitsSuffix | lib/pippa.rb:354-355 | the rewriting of a later part of the header is the tail of the rewriting of an earlier one |
| Zipcodes.InsertSplitsAtSplitPoint | lib/pippa.rb:354-355 | at each split point an underscore sits directly in front of that character, which is shifted by the underscores inserted before it |
| Zipcodes.NoCapitalPairNoAcronym | lib/pippa.rb:354 | a header without two capitals in a row is unchanged by the acronym substitution |
| Zipcodes.AcronymSplit | lib/pippa.rb:354 | `ZIPCode` becomes `ZIP_Code`: the last capital of a run followed by a small letter starts a new word |
| Zipcodes.UnderscoreHeader | lib/pippa.rb:352-358 | the header converter; stated by `Zipcodes.NormalisedShape`, `Zipcodes.UnderscoreHeaderIdempotent` and the concrete header lemmas |
| Zipcodes.ReplaceColonPairsLeavesNone | lib/pippa.rb:353 | no two adjacent colons survive `gsub(/::/, '/')` |
| Zipcodes.ReplaceColonPairsKeeps | lib/pippa.rb:353 | a header without a pair of colons is unchanged |
| Zipcodes.InsertSplitsKeepsColonsApart | lib/pippa.rb:354-355 | inserting underscores never creates a pair of colons |
| Zipcodes.InsertSplitsKeeps | lib/pippa.rb:354-355 | a header without capitals is unchanged by both word-splitting substitutions |
| Zipcodes.InsertSplitsPlain | lib/pippa.rb:354-355 | where no substitution applies, the characters are copied unchanged |
| Zipcodes.NormalisedShape | lib/pippa.rb:352-358 | a normalised header has no capitals, no dashes and no pair of colons |
| Zipcodes.UnderscoreHeaderIdempotent | lib/pippa.rb:352-358 | normalising a normalised header changes nothing |
| Zipcodes.CapitalisedWord | lib/pippa.rb:352-358 | a capitalised word is only lower-cased |
| Zipcodes.ZipcodeHeader | lib/pippa.rb:352-358 | `Zipcode` is read as `zipcode` |
| Zipcodes.LatHeader | lib/pippa.rb:352-358 | `Lat` is read as `lat` |
| Zipcodes.LongHeader | lib/pippa.rb:352-358 | `Long` is read as `long` |
| Zipcodes.ZipCodeTypeHeader | lib/pippa.rb:354-357 | `ZipCodeType` is read as `zip_code_type` |
| Zipcodes.ConvertField | lib/pippa.rb:360-366 | an empty field stays nil and nothing else does; only `lat` and `long` fields can become numbers, a number is the field's parsed value, a string is the field unchanged, and a `lat` or `long` field that parses always becomes its number |
| Zipcodes.FieldOf | lib/pippa.rb:372 | `row[key]`: the field under the first header equal to the key, or nil; stated by `Zipcodes.FieldOfFirstMatch` and `Zipcodes.FieldOfMissing` |
| Zipcodes.FieldOfFirstMatch | lib/pippa.rb:372 | when header `i` is the first equal to the key, the result is field `i`, or nil when the record is shorter |
| Zipcodes.FieldOfMissing | lib/pippa.rb:372 | a key under no header gives nil |
| Zipcodes.RowOf | lib/pippa.rb:360-372 | a record as the zip code, latitude and longitude cells after conversion; stated by `Zipcodes.ConvertField` and `Zipcodes.WestPointTable` |
| Zipcodes.ZipTableOf | lib/pippa.rb:372 | the table of the located rows under their zip codes; stated by `Zipcodes.ZipTableKeys`, `Zipcodes.ZipTableEntries` and `Zipcodes.ZipTableLastRowWins` |
| Zipcodes.ZipsFromCsv | lib/pippa.rb:367-374 | the loop builds the table of the rows under the normalised header row |
| Zipcodes.ZipTableKeys | lib/pippa.rb:372 | a zip code is in the table if and only if some row with that code has both a latitude and a longitude |
| Zipcodes.ZipTableEntries | lib/pippa.rb:372 | every entry is one of the rows, has both coordinates, and is filed under its own zip code |
| Zipcodes.ZipTableLastRowWins | lib/pippa.rb:372 | the last located row for a zip code is the one kept |
| Zipcodes.WestPointRow | lib/pippa.rb:360-372 | the West Point record reads as zip code `10996` with latitude 41.0 and longitude -74.0 |
| Zipcodes.BlankLatitudeRow | lib/pippa.rb:372 | a record with an empty latitude is not located |
| Zipcodes.WestPointTable | lib/pippa.rb:360-372 | the West Point record converts to floats 41 and -74 and enters; a record with an empty latitude does not |
| Pippa.PenOf | lib/pippa.rb:272-279 | `new_gc`: the graphics context a batch is drawn with carries the map's fill, stroke, fill opacity and stroke width; stated by `Pippa.SamePenSameDrawnStyle` |
| Pippa.SamePenSameDrawnStyle | lib/pippa.rb:272-279 | two styles give the same graphics context if and only if they agree on fill, stroke, fill opacity and stroke width; the point size is not part of it |
| Pippa.SecondFlushChangesNothing | lib/pippa.rb:175-192 | after a successful flush, a second `render` with no new dots changes nothing and succeeds |
| Pippa.Map.constructor | lib/pippa.rb:72-89 | a new map has the default style (1, DarkRed, gray25, 0.85, 1), no dots, no batches and no projection; it has an image and catalog fields exactly when its name is in the `map` table |
| Pippa.Map.AddDot | lib/pippa.rb:106-108 | exactly `Dot(x, y, area)` is appended, area defaulting to 0; nothing else changes |
| Pippa.Map.Render | lib/pippa.rb:175-192 | without an image or dots nothing changes; a negative area fails with the queue sorted and nothing drawn; otherwise one batch is appended with the current pen and one primitive per dot in descending-area order, the queue is emptied, and every flushed dot is drawn with the pen of the style it was queued under |
| Pippa.Map.Set | lib/pippa.rb:219-222 | the setter first flushes exactly as `Render` does with the old style, then changes only its own attribute, and only if the flush succeeded |
| Pippa.Map.EnsureProjection | lib/pippa.rb:282-313 | a stored projection is returned and kept (built at most once, line 126); otherwise the projection is built and stored only if the build succeeds |
| Pippa.Map.AddAtLatLon | lib/pippa.rb:125-128 | the projection is ensured first; on success exactly the projected dot is appended, on failure nothing is queued |
| Pippa.Map.AddAtZip | lib/pippa.rb:144-147 | a zip code not in the table changes nothing; a known one adds exactly the projected dot of its row, or fails with nothing queued when the projection fails or a coordinate is not a number |
| Pippa.Map.CallFormatMethod | lib/pippa.rb:224-241 | a name with no `to_` or `write_` conversion is NoMethodError and changes nothing; otherwise the queue is flushed first, then a map without an image fails, and a map with one takes the format and returns its blob or its written image |
| Pippa.FillChangeBetweenDots | lib/pippa.rb:219-222 | a dot queued before `fill = 'red'` is drawn in DarkRed and one queued after it in red, each in its own batch, and each batch is exactly that dot's own primitive |

## Left out

- RMagick: `Image.read`, `Magick::Draw`, `gc.draw`, `to_blob` and `write` are foreign calls. The image is its size. The canvas is the list of drawn batches. A blob or a written file is a value that holds the batches and the format. `Magick.formats` is a table passed in as a parameter.
- File and CSV I/O: `info_from_file` takes the lines already split on whitespace. `zips_from_file` takes the header row and the records already split into fields. The class-level caches `@@info` and `@@zips` become parameters (`info`, `zips`).
- Image files: the map receives the column and row count of its image. A missing or unreadable image file is not modelled.
- Pippa.Map.constructor: requires the catalog to have a `map` table, and a `projection` table whenever the name is found. Ruby raises NoMethodError without them; the model does not capture that error.
- Pippa.Map.constructor: the default name `'World'` is not modelled; the caller always gives a name.
- The Albers formulas (lib/pippa.rb:290-300) use sines, cosines and square roots, which Dafny lacks. They are a function value given to the map. The model keeps which fields are parsed and when the build fails.
- Floating point: all arithmetic uses exact reals. `dot_side` is the exact rounded root; binary rounding of `Math.sqrt` and of the box scales is not modelled.
- Projection.BuildProjection: a degenerate bounding box (equal top and bottom latitudes, or equal longitudes) is reported as `DegenerateBox`. Ruby would divide by zero and get Infinity or NaN scales. A `MAP` line with fewer than four numeric fields is reported as `BadNumber`, where Ruby fails on the `nil` coordinate in the subtraction.
- Text.ParseFloat: accepts only `[+-]digits[.digits]`. Exponents, underscores, hexadecimal forms and surrounding whitespace, which Ruby's `Float()` also takes, are rejected.
- Text.Downcase, Text.Upcase: map only ASCII letters; Ruby's Unicode case mapping is not modelled.
- Catalog.MapNames: is a set; the insertion order of the Ruby array of keys is not kept.
- Pippa.Map.CallFormatMethod: covers only names that are not setters; the setters are `Set`. `respond_to?` is not modelled. `write_xxx` without an argument is reported as `MissingFileName`.
- Pippa.Map.Render: `sort!` in place is modelled by reassigning the queue, sorted by an insertion sort. Any descending-area order meets the contract.
- `zipcode_map` and `write_zipcode_maps` are a random demonstration with file output, and are not modelled.
- The RSpec tests compare binary PNG/JPG output and count records in data files, so they have no counterpart in the model.
