# pol-visualizer core, modelled in Dafny

The visualiser reads a CSV file in the browser and draws one sphere per row in
a 3-D scene. The row's latitude, longitude and timestamp give the position. Each
row's ID is also hashed to a colour, which the code computes but never passes to
the sphere (see below). This project models the part of
`3dviz/src/DataVisualization.js` that turns the file's text into points:

- `stringToColor`, a 32-bit rolling string hash rendered as `#` followed by six
  hexadecimal digits (`color_hash.dfy`);
- the JavaScript string built-ins the parser relies on: `split`, `trim`,
  `toUpperCase` and `indexOf` (`js_strings.dfy`, with the shared trimming shape in
  `trimming.dfy`);
- the `reader.onload` handler in two parts:
  - `ingest.dfy` covers the header lookup, the row parse and the `idToColorMap`
    memo that hashes each ID once;
  - `normalise.dfy` covers the per-axis minimum and maximum and the rescaling of
    every point into the unit cube;
- `CameraController`, which centres the camera above the points (`camera.dfy`).

It also models `to_snowflake_column_name` from `helpers/snowflake.py`, which
turns a free-form label into a Snowflake column name (`column_name.dfy`).

The colours never reach the display. Each parsed record gets its ID's colour
(3dviz/src/DataVisualization.js:96-102). The normalised points built at lines
129-138, however, keep only the position, latitude, longitude and timestamp. Line
155 then passes `color={data.color}` to each `DataPoint`, and that field does not
exist on the points, so every sphere receives `color={undefined}`. The model
follows the code: `Normalisation.Point` has no colour, and `Ingest.RecordColors`
states what the records carry before they are normalised.

JavaScript numbers are modelled as they behave on the values that matter:
- the hash is an unbounded integer, and the bit operators apply ToInt32
  explicitly;
- coordinates are reals;
- `parseFloat` and `new Date(..).getTime()` are parameters of the model
  (`Ingest.Parsers`).

## Model

| member | source | states |
|---|---|---|
| ColorHash.ToInt32 | 3dviz/src/DataVisualization.js:9 | the result is a signed 32-bit integer congruent to the argument modulo 2^32 |
| ColorHash.ShiftLeft5 | 3dviz/src/DataVisualization.js:9 | `x << 5` is a signed 32-bit value congruent to 32·x modulo 2^32 |
| ColorHash.Code | 3dviz/src/DataVisualization.js:9 | definition of `charCodeAt` as the character's code point, which is its UTF-16 code unit only inside the Basic Multilingual Plane; the `ColorHash.Hash` line under Left out states the difference |
| ColorHash.HashStep | 3dviz/src/DataVisualization.js:9 | definition of one loop step on unbounded numbers; HashStepWraps states what it computes |
| ColorHash.HashStepWraps | 3dviz/src/DataVisualization.js:9 | one step `c + ((h << 5) - h)` on unbounded numbers agrees, after ToInt32, with the wrapped recurrence 31·h + c |
| ColorHash.Hash | 3dviz/src/DataVisualization.js:7-10 | the signed 32-bit value (ToInt32) of the first loop's unreduced accumulator, which is all that `>>` at line 14 reads; HashIsPolynomial states its value |
| ColorHash.HashExtend | 3dviz/src/DataVisualization.js:8-10 | helper: hashing one more character applies the wrapped recurrence to the hash of the prefix |
| ColorHash.HashIsPolynomial | 3dviz/src/DataVisualization.js:7-10 | the hash is the base-31 polynomial of the character codes reduced to signed 32 bits |
| ColorHash.Channel | 3dviz/src/DataVisualization.js:14 | `(hash >> 8i) & 0xFF` is a byte, 0 to 255 |
| ColorHash.ChannelIsUnsignedByte | 3dviz/src/DataVisualization.js:14 | channel i is byte i of the unsigned 32-bit form of the hash, for negative hashes too |
| ColorHash.ToHexString | 3dviz/src/DataVisualization.js:15 | `toString(16)` gives at least one lowercase hexadecimal digit, and exactly one for values below 16 |
| ColorHash.HexRoundTrip | 3dviz/src/DataVisualization.js:15 | the digits of `toString(16)` read back as the number |
| ColorHash.DigitValue | 3dviz/src/DataVisualization.js:15 | a hexadecimal digit's value is the inverse of the digit for a value |
| ColorHash.PadTwo | 3dviz/src/DataVisualization.js:15 | definition of `('00' + s).substr(-2)`; PadTwoCases states its result |
| ColorHash.PadTwoCases | 3dviz/src/DataVisualization.js:15 | the padding gives two characters: the last two of a longer string, a zero before one digit, or `00` |
| ColorHash.ByteHexDigits | 3dviz/src/DataVisualization.js:15 | `('00' + v.toString(16)).substr(-2)` is exactly the two-digit zero-padded form of a byte |
| ColorHash.ByteHex | 3dviz/src/DataVisualization.js:15 | definition of one appended channel, `('00' + v.toString(16)).substr(-2)`; ByteHexDigits states its result |
| ColorHash.ColorPrefix | 3dviz/src/DataVisualization.js:12-16 | definition of the second loop's accumulator after n turns; ColorPrefixLayout states its layout |
| ColorHash.ColorPrefixLayout | 3dviz/src/DataVisualization.js:12-16 | after n turns of the second loop the colour is `#` and 2n hex digits, two per channel, high digit first |
| ColorHash.ColorOf | 3dviz/src/DataVisualization.js:6-18 | every colour is `#` followed by six lowercase hexadecimal digits |
| ColorHash.ColorFormat | 3dviz/src/DataVisualization.js:6-18 | every colour is 7 characters, `#` and six lowercase hex digits, and digit pair i reads back as channel i of the hash |
| ColorHash.SamePrefix | 3dviz/src/DataVisualization.js:12-16 | the colour depends on the hash only through its signed 32-bit value |
| ColorHash.StringToColor | 3dviz/src/DataVisualization.js:6-18 | the two loops compute exactly the colour of the string's wrapped polynomial hash |
| Trimming.Leading | 3dviz/src/DataVisualization.js:79 | the longest prefix inside a character class: all inside, and the next character outside |
| Trimming.Trailing | 3dviz/src/DataVisualization.js:79 | the same for the longest suffix |
| Trimming.TrimWhere | 3dviz/src/DataVisualization.js:79 | the result is a contiguous piece of the input, everything cut off either end is in the class, and the result neither starts nor ends with it |
| Trimming.TrimWhereUnchanged | helpers/snowflake.py:145 | a string with no class character at either end is left as it is |
| JsStrings.Split | 3dviz/src/DataVisualization.js:77 | `split` gives at least one piece, no piece holds the separator, and joining the pieces with it gives the input back |
| JsStrings.SplitJoin | 3dviz/src/DataVisualization.js:77 | splitting is also the left inverse of joining separator-free pieces, so the pieces are unique |
| JsStrings.SplitAfterWord | 3dviz/src/DataVisualization.js:77 | a separator-free word in front of some text extends the first piece of the text's split |
| JsStrings.IsJsWhitespace | 3dviz/src/DataVisualization.js:79 | definition of the characters `trim` removes at lines 79 and 89: ECMAScript's WhiteSpace and LineTerminator code points; Trim states what is removed |
| JsStrings.Trim | 3dviz/src/DataVisualization.js:79 | `trim` removes only JavaScript white space and line terminators, from both ends, and keeps the middle |
| JsStrings.ToUpper | 3dviz/src/DataVisualization.js:79 | `toUpperCase` keeps the length and maps every character on its own |
| JsStrings.IndexOf | 3dviz/src/DataVisualization.js:80-83 | `indexOf` is the first position holding the value, or -1 exactly when no element equals it |
| Ingest.HeaderTokens | 3dviz/src/DataVisualization.js:79 | one header token per comma-separated piece, none holding an ASCII lower-case letter |
| Ingest.UpperHasNoLower | 3dviz/src/DataVisualization.js:79 | helper: upper-casing leaves no ASCII lower-case letter |
| Ingest.HeaderColumns | 3dviz/src/DataVisualization.js:79-83 | each of the four column indices is the first trimmed, upper-cased header token equal to its name, or -1 |
| Ingest.Fields | 3dviz/src/DataVisualization.js:89 | one field per comma-separated piece of the row, none with white space at either end |
| Ingest.Field | 3dviz/src/DataVisualization.js:90-93 | helper: `columns[index]` is defined exactly for an index inside the row, and is then that column |
| Ingest.NonEmpty | 3dviz/src/DataVisualization.js:88 | the kept rows are exactly the non-empty input rows: each kept row is a non-empty input row, and each non-empty input row is kept |
| Ingest.NonEmptyConcat | 3dviz/src/DataVisualization.js:109 | keeping the non-empty rows distributes over concatenation, so the kept rows stay in input order |
| Ingest.NonEmptySingle | 3dviz/src/DataVisualization.js:109 | a single row is kept exactly when it is not empty |
| Ingest.BlankRowsKeepNothing | 3dviz/src/DataVisualization.js:87-109 | rows that are all empty yield no record |
| Ingest.BlankRowsParse | 3dviz/src/DataVisualization.js:87-109 | rows that are all empty parse to no record, whatever the row parser |
| Ingest.ParseRecord | 3dviz/src/DataVisualization.js:89-106 | a non-empty row yields a record exactly when it has an ID column, and the record carries that ID and the ID's colour |
| Ingest.ParseRows | 3dviz/src/DataVisualization.js:87-109 | definition of `map` followed by `filter`; ParseRowsFails, ParseRowsMatchesLines and FailureIsFinal state its properties |
| Ingest.ParseText | 3dviz/src/DataVisualization.js:77-109 | definition of the whole parse, the header line followed by the rows; ParseLines is proved against it |
| Ingest.RowParser | 3dviz/src/DataVisualization.js:87-108 | definition of the `map` callback for the header's columns; RowParserAt and RowParserFails state its two outcomes |
| Ingest.OutcomeOf | 3dviz/src/DataVisualization.js:87-108 | definition of what the callback makes of one line: `null` for an empty line, a record, or a throw; MapLine and ParseRowsStep are stated with it |
| Ingest.ParseRowsFails | 3dviz/src/DataVisualization.js:87-109 | the parse fails exactly when some non-empty row fails, here a row without an ID column, whose `stringToColor(undefined)` throws |
| Ingest.ParseRowsMatchesLines | 3dviz/src/DataVisualization.js:87-109 | on success the records correspond one to one and in order to the non-empty rows |
| Ingest.FailureIsFinal | 3dviz/src/DataVisualization.js:87-109 | once a row has thrown, no later row can rescue the load |
| Ingest.ParseRowsStep | 3dviz/src/DataVisualization.js:87-109 | helper: one more row skips, appends its record, or aborts the parse, according to its outcome |
| Ingest.RowParserAt | 3dviz/src/DataVisualization.js:89-106 | helper: a row with an ID column yields the record of its trimmed fields, coloured by its ID |
| Ingest.RowParserFails | 3dviz/src/DataVisualization.js:90-97 | helper: a row without an ID column makes the parse throw |
| Ingest.RecordColors | 3dviz/src/DataVisualization.js:95-102 | every record carries the colour of its own ID, so records sharing an ID share a colour |
| Ingest.ColorFor | 3dviz/src/DataVisualization.js:96-102 | the memo lookup returns the ID's colour, adds the ID as a key, keeps every entry equal to its key's colour, and hashes only for a new ID |
| Ingest.MapLine | 3dviz/src/DataVisualization.js:87-108 | the `map` callback gives the outcome of the row parse; only a mapped row touches the memo, which gains its ID as a key |
| Ingest.ParseLines | 3dviz/src/DataVisualization.js:85-109 | the loop computes the row parse; on success the memo's keys are exactly the records' IDs, and `stringToColor` ran once per distinct ID |
| Normalisation.Min | 3dviz/src/DataVisualization.js:121-126 | `Math.min(...s)` on a non-empty list is an element no greater than any other |
| Normalisation.Max | 3dviz/src/DataVisualization.js:121-126 | `Math.max(...s)` on a non-empty list is an element no smaller than any other |
| Normalisation.MinAt | 3dviz/src/DataVisualization.js:121 | helper: the minimum sits at some index of the list |
| Normalisation.MaxAt | 3dviz/src/DataVisualization.js:122 | helper: the maximum sits at some index of the list |
| Normalisation.SameElementsSameBounds | 3dviz/src/DataVisualization.js:121-126 | lists with the same elements have the same minimum and maximum |
| Normalisation.Xs | 3dviz/src/DataVisualization.js:111-119 | definition of the `xs` array, the records' x values in order; CollectAxes is proved to build it |
| Normalisation.Ys | 3dviz/src/DataVisualization.js:111-119 | definition of the `ys` array; CollectAxes is proved to build it |
| Normalisation.Zs | 3dviz/src/DataVisualization.js:111-119 | definition of the `zs` array; CollectAxes is proved to build it |
| Normalisation.CollectAxes | 3dviz/src/DataVisualization.js:111-119 | the `forEach` loop gathers each axis's values in record order |
| Normalisation.Scale | 3dviz/src/DataVisualization.js:131-133 | `(v - lo) / (hi - lo)` maps [lo, hi] into [0, 1], lo to 0 and hi to 1, and denormalising gives v back |
| Normalisation.BoundsOf | 3dviz/src/DataVisualization.js:121-126 | definition of the six bounds; Min, Max and AllWithinBounds state their properties |
| Normalisation.AllWithinBounds | 3dviz/src/DataVisualization.js:121-126 | every record lies within its batch's per-axis bounds |
| Normalisation.NormalisePoint | 3dviz/src/DataVisualization.js:129-138 | one point keeps the raw latitude, longitude and timestamp, and lies in the unit cube when the record is within the bounds |
| Normalisation.Normalise | 3dviz/src/DataVisualization.js:128-138 | one point per record, in order, each in the unit cube, each keeping its record's raw values |
| Normalisation.NormaliseWith | 3dviz/src/DataVisualization.js:129-138 | helper: the `map` applies the one-point rescaling to every record |
| Normalisation.NormaliseAt | 3dviz/src/DataVisualization.js:129-138 | helper: point k is record k rescaled by the batch's bounds, which are proper |
| Normalisation.NormaliseExtremes | 3dviz/src/DataVisualization.js:128-138 | a record holding an axis minimum lands on 0 on that axis, one holding the maximum on 1 |
| Normalisation.NormaliseInverse | 3dviz/src/DataVisualization.js:128-138 | denormalising a position with the bounds gives back the record's raw values |
| Normalisation.NormaliseMonotone | 3dviz/src/DataVisualization.js:128-138 | normalisation keeps the order of values on every axis, in both directions |
| Normalisation.ScaleMonotone | 3dviz/src/DataVisualization.js:131-133 | the rescaling is order-preserving and order-reflecting |
| Normalisation.ReorderedElements | 3dviz/src/DataVisualization.js:121-126 | a list and a reordering of it have the same elements |
| Normalisation.NormaliseReorder | 3dviz/src/DataVisualization.js:111-138 | reordering the rows reorders the points the same way and moves no point |
| Normalisation.Load | 3dviz/src/DataVisualization.js:75-141 | the load fails exactly when the parse fails, and otherwise gives one point in the unit cube per parsed record |
| Normalisation.OnLoad | 3dviz/src/DataVisualization.js:75-141 | the handler computes the parse followed by the normalisation, and fails exactly when the parse throws |
| Camera.PositionXs | 3dviz/src/DataVisualization.js:206-207 | definition of `dataPoints.map(p => p.position.x)`; CameraTarget and NormalisedXExtent state its bounds |
| Camera.PositionYs | 3dviz/src/DataVisualization.js:206-207 | definition of `dataPoints.map(p => p.position.y)`; CameraTarget and NormalisedYExtent state its bounds |
| Camera.CameraTarget | 3dviz/src/DataVisualization.js:198-224 | the camera moves only for a non-empty point list, to z = 2 above a centre halfway between the least and greatest X and Y, looking straight down at z = 0 |
| Camera.NormalisedXExtent | 3dviz/src/DataVisualization.js:206-212 | normalised X values run from exactly 0 to exactly 1 |
| Camera.NormalisedYExtent | 3dviz/src/DataVisualization.js:206-212 | normalised Y values run from exactly 0 to exactly 1 |
| Camera.UnitExtentX | 3dviz/src/DataVisualization.js:209-210 | points in the unit cube with an X of 0 and an X of 1 have exactly that X extent |
| Camera.UnitExtentY | 3dviz/src/DataVisualization.js:211-212 | the same for Y |
| Camera.CentreOfUnitExtent | 3dviz/src/DataVisualization.js:214-221 | a unit X/Y extent puts the camera at (0.5, 0.5, 2) looking at (0.5, 0.5, 0) |
| Camera.NormalisedCameraCentre | 3dviz/src/DataVisualization.js:202-221 | after normalising a non-degenerate batch the camera is always at (0.5, 0.5, 2) looking at (0.5, 0.5, 0) |
| Camera.CameraAfterLoad | 3dviz/src/DataVisualization.js:202-221 | a load that yields points puts the camera at the centre of the unit square |
| Camera.HeaderOnlyLoad | 3dviz/src/DataVisualization.js:87-109 | a file with nothing after the header loads no point, and the camera is not moved |
| ColumnName.IsSpace | helpers/snowflake.py:145-146 | definition of Python's `isspace` and `\s` on ASCII: 0x09-0x0D, 0x1C-0x1F and space; Strip and CollapseSpace state what they do with it |
| ColumnName.IsWord | helpers/snowflake.py:147 | definition of Python's `\w` on ASCII: letters, digits and underscore; KeepWordChars and its lemmas state what is kept |
| ColumnName.Lower | helpers/snowflake.py:143 | `lower` keeps the length, maps each character on its own, and leaves no upper-case letter |
| ColumnName.LowerUnchanged | helpers/snowflake.py:143 | lower-casing a string with no upper-case letter changes nothing |
| ColumnName.Strip | helpers/snowflake.py:145 | `strip` removes only white space, from both ends, and keeps the middle |
| ColumnName.StripKeepsNoUpper | helpers/snowflake.py:145 | stripping brings in no upper-case letter |
| ColumnName.CollapseSpace | helpers/snowflake.py:146 | `re.sub(r'\s+', '_', s)` leaves no white space, brings in no upper-case letter, and does not lengthen the string |
| ColumnName.CollapseRun | helpers/snowflake.py:146 | each maximal run of white space becomes exactly one underscore |
| ColumnName.CollapseNoSpace | helpers/snowflake.py:146 | on a string without white space the substitution changes nothing |
| ColumnName.KeepWordChars | helpers/snowflake.py:147 | `re.sub(r'\W', '', s)` keeps only word characters and brings in no upper-case letter |
| ColumnName.KeepWordCharsConcat | helpers/snowflake.py:147 | deleting the non-word characters distributes over concatenation, so the kept characters stay in their input order |
| ColumnName.KeepWordCharsSingle | helpers/snowflake.py:147 | a single character is kept exactly when it is a word character |
| ColumnName.KeepWordCharsCounts | helpers/snowflake.py:147 | each word character is kept as often as it occurs, and nothing else is kept |
| ColumnName.KeepAllWordChars | helpers/snowflake.py:147 | on a string of word characters the deletion changes nothing |
| ColumnName.MoveShape | helpers/snowflake.py:150-152 | without a line feed, the second group reaches the end of the string |
| ColumnName.MoveIsRotation | helpers/snowflake.py:149-152 | on a string without line feeds the leading non-letters are rotated to the end, the characters are kept, and the result starts with a letter if there is one |
| ColumnName.RotationKeepsChars | helpers/snowflake.py:150-152 | a rotation of a name keeps it made of name characters and brings in no letter |
| ColumnName.SanitisedChars | helpers/snowflake.py:143-147 | after the sanitising steps only lower-case letters, digits and underscores remain, no more of them than in the stripped input |
| ColumnName.MoveLeadingNonLetters | helpers/snowflake.py:149-152 | definition of the regular-expression rotation, with `.` stopping at a line feed; MoveIsRotation states its properties |
| ColumnName.Sanitised | helpers/snowflake.py:143-147 | definition of the sanitising steps in order; SanitisedChars states their result |
| ColumnName.ToColumnName | helpers/snowflake.py:130-154 | definition of the conversion on ASCII input; ColumnNameShape and ColumnNameIdempotent state its properties |
| ColumnName.ColumnNameShape | helpers/snowflake.py:130-154 | a column name holds only lower-case letters, digits and underscores, rearranges the sanitised string, and starts with a letter whenever it has one |
| ColumnName.NoLetterKeepsOrder | helpers/snowflake.py:130-154 | when no letter survives sanitising the name is returned unmoved, so it can start with a digit or underscore contrary to the docstring's promise that it does not start with a non-letter |
| ColumnName.SanitisedUnchanged | helpers/snowflake.py:143-147 | the sanitising steps leave a string of name characters as it is |
| ColumnName.MoveUnchanged | helpers/snowflake.py:149-152 | a name that starts with a letter, or has none, is not moved |
| ColumnName.ColumnNameIdempotent | helpers/snowflake.py:130-154 | converting a column name again gives it back |

## Left out

- The React components (`DataPoint`, `DataVisualization`'s rendering, the hover label) and `App.js` are not modelled. They hold UI logic only: drawing the spheres, formatting the hovered point's timestamp and setting the shared hover state.
- The `FileReader`, the file input event and `console.log` are input and output. The model starts from the file's text.
- The three.js and react-three-fiber calls (`camera.position.copy`, `lookAt`, `set`) are foreign code. `Camera.CameraTarget` gives the pose they receive, or `None` when the effect does nothing.
- `parseFloat` and `new Date(..).getTime()` are foreign conversions and appear only as the parameters in `Ingest.Parsers`. What they return for malformed text (NaN) is not modelled.
- NaN, the infinities and rounding of doubles are not modelled. Coordinates are exact reals.
- Normalisation.Normalise: requires that every axis have two different values (`Normalisation.Spread`). When an axis is degenerate the source divides 0 by 0 and gets NaN.
- Normalisation.Load: `Math.min(...xs)` and `Math.max(...xs)` (lines 121-126 and 209-212) pass every value as a separate argument. JavaScript engines cap the number of arguments; V8, for example, throws `RangeError` somewhere around 10^5 values. On such a file the source's handler throws and nothing loads, while the model loads files of any size.
- Normalisation.Load: requires that same condition of the parsed records (`Normalisation.LoadSpread`), and so do `Normalisation.OnLoad` and `Camera.CameraAfterLoad`.
- Doubles are replaced by exact integers in the hash. The source never reduces `hash` itself, only the shifted value, so each step changes its magnitude by less than 2^32. It therefore stays below 2^53, where doubles are exact, for strings shorter than 2^21 characters. Longer strings would lose precision in the source and are not modelled.
- ColorHash.Hash: a Dafny `char` is a Unicode scalar value, and `ColorHash.Code` is its code point, while `charCodeAt` reads UTF-16 code units. For a character outside the Basic Multilingual Plane, such as U+1F600, the model hashes the one code point 0x1F600, but JavaScript hashes its two surrogates, 0xD83D and 0xDE00. The model's colour for an ID holding such a character therefore differs from the source's. IDs made only of Basic Multilingual Plane characters are hashed exactly as in the source. Lone surrogates, which JavaScript strings may hold, cannot be represented at all.
- JsStrings.ToUpper: upper-cases only the ASCII letters. JavaScript's full Unicode case mapping, including the mappings that change the length, is not modelled.
- ColumnName.ToColumnName: requires ASCII input. On ASCII `str` and `unidecode` are the identity, and Python's `lower`, `strip`, `\s` and `\w` have their ASCII meaning. Unicode transliteration and Unicode character classes are not modelled.
- The other functions of `helpers/snowflake.py` open connections to Snowflake and run SQL. They are network code and are not part of this model.
