# Maidenhead locator codec and sun-times decision logic, in Dafny

This project models two PHP source files.

`maidenhead.php` is the Maidenhead grid-locator codec used in amateur radio:

- `latlon2loc` turns a (latitude, longitude) position into a locator of 2 to 12 or more characters.
- `loc2latlon` turns a locator back into the centre of the cell it names.

A locator is a sequence of pairs, one character for longitude and one for latitude:

- Pair 0, the field, is two letters A-R, each worth 20 by 10 degrees.
- Odd pairs are digits 0-9.
- The other even pairs are letters A-X.
- Each pair divides the cell of the previous one into 10 or 24 parts per axis.

From `sun.php` the project models the decision logic of the sun-times service:

- the choice of the nearest time zone in `get_nearest_timezone`;
- `formatTimeRounded`;
- the polar-day / polar-night classification of a day;
- the normalisation of the `columns` request parameter;
- the assembly of the output headers.

## Modules

- **Php** (`php.dfy`): the PHP built-ins the code relies on, as pure functions with their properties. These are `intval`, `fmod`, `chr`, `strval`, `sprintf('%02d')`, `trim`, `strtoupper`, `strtolower`, string truthiness, `explode`, `array_map`, `array_filter` and `array_unique`. `implode` is defined as well, to state that `explode` loses nothing.
- **Maidenhead** (`maidenhead.dfy`): the codec. Each PHP function is one method, written step by step like the source, and proved equal to a specification function.
  - `LatLon2Loc` is a loop with its invariant, proved against `Locator`.
  - `Loc2LatLon` accumulates the corner in `CellCorner` and adds the centring offset; it is proved against `Decoded`.
  - The specification functions describe the cell geometry: `Radix`, `LonSpan`, `Offset`, `CornerLon`/`CornerLat` and `Centre`.
- **LocatorTheorems** (`locator_theorems.dfy`): what the encoder guarantees and the round trip.
  - The length of an encoded locator.
  - The character class of every pair.
  - Which precisions give locators the decoder accepts.
  - An in-range position lies in the cell of its own locator.
  - Decoding that locator gives the centre of the cell, within half a cell of the position on each axis.
- **DecoderTheorems** (`decoder_theorems.dfy`): what the decoder guarantees.
  - The centre of a well-formed locator lies strictly inside the cell of each of its prefixes, and strictly inside the globe.
  - Decoding ignores letter case.
- **LocatorExamples** (`locator_examples.dfy`): concrete values.
  - The New York example: (40.645246, -73.785112) encodes to FN30CP54SU86, which decodes to the centre of its cell.
  - Inputs the code does not reject: the encoder has no range check, so latitude 90 gives the field letter S. The decoder checks only the length, so ZZ decodes off the globe and AAXX decodes like AA00.
- **Sun** (`sun.dfy`): the `sun.php` logic.
  - The nearest time zone is a loop proved to pick the first located zone of least distance.
  - `formatTimeRounded` is proved against the minute of the day it rounds to.
  - The condition rule is a function stated in both directions.
  - The column selection and the headers are functions with lemmas: membership, order and repeats of the selected columns, cleanliness, idempotence, and the order and uniqueness of the headers.

Arithmetic is exact (`real`), and strings are sequences of characters.

Notes on the code's own behaviour, which the model keeps:

- The field pair counts 20 by 10 degree cells from (-180, -90) with the letters A-R.
- After the field, the working values are the longitude remainder halved and the latitude remainder. Each pair is the integer part of the working values, and the fraction is carried, scaled by 24 after a digit pair and by 10 after a letter pair.
- `latlon2loc` does not validate the precision. A precision of 1 or less gives 2 characters. For in-range positions, a precision above 6 gives a locator that `loc2latlon` rejects (`EncodedDecodes`).
- `latlon2loc` does not range-check the position. Outside the range, the characters leave their classes (`NorthPoleOutOfClass`). `RoundTrip` is proved for positions in [-90, 90) x [-180, 180).
- `loc2latlon` trims as well as upper-cases its input, and checks only the length (`DecodesOffGlobe`, `LettersInDigitPair`).

## Model

| member | source | states |
|---|---|---|
| Php.IntVal | maidenhead.php:42-43 | `intval` of a float truncates toward zero: within one below x for x >= 0, within one above for x < 0 |
| Php.FMod | maidenhead.php:40-41 | `fmod` by a positive divisor keeps the sign of x and has magnitude below the divisor |
| Php.FModQuotient | maidenhead.php:40-41 | x is the quotient truncated toward zero times the divisor plus `fmod` of x, which with the sign and magnitude fixes the value |
| Php.Chr | maidenhead.php:33 | `chr` gives a code below 256 that differs from its argument by a multiple of 256, and so the argument itself for 0..255 |
| Php.StrVal | maidenhead.php:46 | `strval` of a digit 0..9 is that one digit; of n >= 0 a digit string worth n without a leading zero; of n < 0 a '-' followed by such a digit string worth -n |
| Php.IntValChar | maidenhead.php:88-109 | `intval` of a one-character string: the digit's value, 0 for a character that does not start a number (no contract; LettersInDigitPair shows the 0) |
| Php.Decimal | maidenhead.php:46 | the decimal numeral of n is non-empty digits worth n, with no leading zero and one digit exactly when n < 10 |
| Php.Pad2 | sun.php:67 | `%02d` of 0..99 is two digits worth n |
| Php.Trim | maidenhead.php:73 | `trim`: `rtrim` of `ltrim` (a definition; TrimStartShape, TrimEndShape, TrimNoop and TrimTwice state what it removes) |
| Php.TrimStartShape | maidenhead.php:73 | `ltrim` removes exactly the leading run of the six trimmable characters |
| Php.TrimEndShape | maidenhead.php:73 | `rtrim` removes exactly the trailing run of trimmable characters |
| Php.TrimNoop | maidenhead.php:73 | a string without trimmable characters at either end is left alone by `trim` |
| Php.TrimTwice | sun.php:92 | `trim` is idempotent |
| Php.Falsy | sun.php:50 | PHP truthiness of a string: only "" and "0" are false (a definition, no contract; OrUtc and SelectedClean state what it gives) |
| Php.Upper | maidenhead.php:73 | `strtoupper` of ASCII letters (a definition; UpperShape and UpperNoop state its effect) |
| Php.UpperShape | maidenhead.php:73 | `strtoupper` maps each character independently and keeps the length |
| Php.UpperNoop | maidenhead.php:73 | a string with no lower-case letter is left alone by `strtoupper` |
| Php.Lower | sun.php:92 | `strtolower` of ASCII letters (a definition; LowerShape, TrimLower and UpperLower state its effect) |
| Php.LowerShape | sun.php:92 | `strtolower` maps each character independently and keeps the length |
| Php.TrimLower | maidenhead.php:73 | trimming and lower-casing commute |
| Php.UpperLower | maidenhead.php:73 | upper-casing after lower-casing equals upper-casing |
| Php.ArrayMap | sun.php:92 | `array_map` applies its callback to each entry, in order, and keeps the length |
| Php.ArrayMapAppend | sun.php:92 | `array_map` works on each part of a list separately |
| Php.ArrayFilter | sun.php:92 | `array_filter` keeps exactly the accepted values, and no more entries than it is given |
| Php.ArrayFilterAppend | sun.php:92 | `array_filter` works on each part of a list separately, so it keeps the accepted entries in their order and with their repeats |
| Php.ArrayFilterOne | sun.php:92 | `array_filter` keeps one entry exactly when it is accepted |
| Php.Explode | sun.php:92 | `explode` gives at least one piece, and no piece contains the separator |
| Php.ImplodeExplode | sun.php:92 | joining the pieces of `explode` with the separator gives back the string |
| Php.ExplodeImplode | sun.php:92 | splitting a join of separator-free pieces gives back the pieces |
| Php.ExplodeJoin | sun.php:92 | splitting a + separator + b gives the pieces of a followed by those of b |
| Php.Unique | sun.php:160 | `array_unique` leaves no duplicates and keeps exactly the values of its input |
| Php.UniqueNoDup | sun.php:160 | a list without duplicates is unchanged by `array_unique` |
| Php.UniquePrefix | sun.php:160 | appending to a list does not change the unique values of its front part |
| Php.UniqueOrder | sun.php:160 | `array_unique` keeps the values in the order of their first occurrences |
| Maidenhead.Radix | maidenhead.php:45-52 | each pair takes 18 (field), 10 (odd pairs) or 24 values per axis |
| Maidenhead.Span | maidenhead.php:84-110 | every cell width is positive |
| Maidenhead.SpanTimesRadix | maidenhead.php:45-52 | a cell of pair k times its radix is the cell of pair k - 1, so the decoder's spans invert the encoder's scaling by 24 and 10 |
| Maidenhead.SpanTable | maidenhead.php:84-110 | the longitude spans are 20, 2, 5/60, 5/600, 5/14400 and 5/144000 degrees (latitude half of these) |
| Maidenhead.CharIndex | maidenhead.php:84-109 | the value the decoder reads from a character: `intval` for the digit pairs, the distance from 'A' otherwise (a definition; CharIndexInClass and EmittedPair state its range and that it inverts the encoder) |
| Maidenhead.CharIndexInClass | maidenhead.php:84-109 | a character of its pair's class reads back as a value below the radix |
| Maidenhead.PairSum | maidenhead.php:84-110 | the `+=` accumulation: each pair adds its character's value in cells of its span (a definition; OffsetUnfold and CellCorner state it) |
| Maidenhead.Offset | maidenhead.php:84-110 | the corner's distance from the origin on one axis, the sum PairSum (a definition; OffsetUnfold, AddPair and CellCorner state it) |
| Maidenhead.OffsetUnfold | maidenhead.php:84-110 | pair k adds its character's value times the pair's span to the corner |
| Maidenhead.AddPair | maidenhead.php:84-110 | one `+=` pair of the decoder moves the corner of the first k pairs to that of the first k + 1 pairs |
| Maidenhead.Normalize | maidenhead.php:73 | `strtoupper(trim(...))` of the argument (a definition; NormalizeClassed and NormalizeLower state what it keeps) |
| Maidenhead.Decoded | maidenhead.php:59-133 | `loc2latlon` as a function: the centre of the cell of the normalised locator, or the length exception (a definition; Loc2LatLon is proved equal to it, and DecodeInsideCells, DecodeIgnoresCase and RoundTrip state its properties) |
| Maidenhead.Centre | maidenhead.php:112-130 | the corner plus half the last pair's span on each axis (a definition; CentreOf, CentreOfCorner, CentreInCell and CentreOnGlobe state it) |
| Maidenhead.CentreOf | maidenhead.php:112-130 | the decoded centre is the corner plus half of the last pair's span on each axis |
| Maidenhead.CentreOfCorner | maidenhead.php:112-130 | the centre offsets written in the branches are half the last pair's span |
| Maidenhead.CellCorner | maidenhead.php:80-110 | the accumulation of `loc2latlon` on a locator of valid length yields the south-west corner of its cell |
| Maidenhead.Loc2LatLon | maidenhead.php:59-133 | `loc2latlon` returns the cell centre of the trimmed, upper-cased locator, or throws the length exception for a length outside 2..12 or odd |
| Maidenhead.FieldPair | maidenhead.php:28-33 | the field letters from the 20 by 10 degree cell counted from (-180, -90) (a definition; FieldPairInClass and NorthPoleOutOfClass state what it gives) |
| Maidenhead.EmitPair | maidenhead.php:42-52 | the pair one loop iteration appends: `strval` of the integer parts on even iterations, letters from 'A' on odd ones (a definition; EmittedPair states its class and read-back) |
| Maidenhead.Carry | maidenhead.php:40-52 | the fraction carried to the next pair, scaled by 24 after a digit pair and by 10 after a letter pair (a definition; ScaleStep states its range and value) |
| Maidenhead.Tail | maidenhead.php:38-54 | what the loop appends from a counter value on (a definition; TailLength, TailShape and TailInCell state its length, classes and cell) |
| Maidenhead.Locator | maidenhead.php:2-57 | `latlon2loc` as a function: the arity exception, or the field pair followed by the loop's pairs (a definition; LatLon2Loc is proved equal to it, and LocatorLength, LocatorClasses, LocatorCell and RoundTrip state its properties) |
| Maidenhead.LocatorStart | maidenhead.php:28-36 | before the loop, the grid holds the field pair and the working values are the halved longitude and the latitude remainders |
| Maidenhead.TailStep | maidenhead.php:38-54 | one loop iteration appends one pair and carries the scaled fractions |
| Maidenhead.LatLon2Loc | maidenhead.php:2-57 | `latlon2loc` throws the arity exception exactly when the position does not have two elements, and otherwise returns `Locator` |
| LocatorTheorems.StartWorking | maidenhead.php:29-35 | for positions not below (-90, -180), the values left by the field pair lie in [0, 10) |
| LocatorTheorems.ScaleStep | maidenhead.php:40-53 | a working value in [0, radix) leaves a carry in [0, next radix) equal to the next radix times its fractional part |
| LocatorTheorems.CarryWorking | maidenhead.php:40-53 | loop invariant: before a digit pair the working values lie in [0, 10), before a letter pair in [0, 24) |
| LocatorTheorems.EmittedPair | maidenhead.php:42-52 | each loop iteration appends two characters of its pair's class, which the decoder reads back as the integer parts |
| LocatorTheorems.TailLength | maidenhead.php:38-54 | the loop appends two characters per remaining iteration |
| LocatorTheorems.TailShape | maidenhead.php:38-54 | every character the loop appends is of its pair's class |
| LocatorTheorems.FieldPairInClass | maidenhead.php:28-33 | for in-range positions the field pair is two letters A-R, read back as the field indices |
| LocatorTheorems.LocatorParts | maidenhead.php:33-56 | the result of `latlon2loc` is the field pair followed by what the loop appends |
| LocatorTheorems.PartsLength | maidenhead.php:36-56 | for positions not below (-90, -180), field pair plus loop output has length 2 for precision <= 1, else twice the precision |
| LocatorTheorems.LocatorLength | maidenhead.php:33-56 | for positions not below (-90, -180), the output has length 2 for precision <= 1 and 2 * precision otherwise; precision is not capped |
| LocatorTheorems.ClassesOfParts | maidenhead.php:28-53 | field letters followed by loop pairs of the classes of pairs 1, 2, ... put every pair in its class |
| LocatorTheorems.PartsClasses | maidenhead.php:28-53 | the field pair and the loop output of an in-range position have every pair in its class |
| LocatorTheorems.LocatorClasses | maidenhead.php:28-53 | for in-range positions pair 0 is letters A-R, odd pairs digits, other even pairs letters A-X |
| LocatorTheorems.NormalizeClassed | maidenhead.php:73 | a string of class characters survives `strtoupper(trim(...))` unchanged |
| LocatorTheorems.ClassedDecodes | maidenhead.php:73-78 | a classed string of the encoder's length decodes exactly when the precision is at most 6 |
| LocatorTheorems.EncodedDecodes | maidenhead.php:76-78 | an encoded in-range position is accepted by the decoder exactly when the precision is at most 6 |
| LocatorTheorems.PositionStep | maidenhead.php:40-52 | taking the integer part as the pair and carrying the scaled fraction keeps the point the encoder's state stands for |
| LocatorTheorems.PositionInCell | maidenhead.php:112-130 | a working value below the radix stands for a point of the cell of the pairs emitted so far |
| LocatorTheorems.TailSplit | maidenhead.php:38-54 | what the loop appends is the pair emitted from the working values followed by what it appends from the next counter value |
| LocatorTheorems.CarryStep | maidenhead.php:40-52 | one loop iteration, read back by the decoder's weights, keeps the point on each axis |
| LocatorTheorems.TailInCell | maidenhead.php:38-54 | the point the loop state stands for lies in the cell of the finished locator |
| LocatorTheorems.FieldPosition | maidenhead.php:28-35 | after the field pair, the decoder's weights plus the working values give back the shifted position |
| LocatorTheorems.PartsCell | maidenhead.php:28-56 | an in-range position lies in the cell of its field pair plus loop output |
| LocatorTheorems.LocatorCell | maidenhead.php:2-57 | an in-range position lies in the cell of its own locator, for every precision |
| LocatorTheorems.DecodeNear | maidenhead.php:112-130 | a classed locator whose cell holds the position decodes to a point within half the last span of it |
| LocatorTheorems.RoundTrip | maidenhead.php:2-133 | for an in-range position and precision up to 6, the position lies in the cell of its locator, decoding the locator returns the centre of that cell, and the centre is within half the last pair's span of the position on each axis |
| DecoderTheorems.PairWeight | maidenhead.php:84-110 | a class character adds between 0 and the parent span less one cell |
| DecoderTheorems.TailBound | maidenhead.php:84-110 | pairs k..m-1 of a well-formed locator keep the m-pair cell inside the k-pair cell |
| DecoderTheorems.FieldBound | maidenhead.php:84-85 | the field cell of a well-formed locator lies on the globe |
| DecoderTheorems.CentreInCell | maidenhead.php:112-130 | the decoded centre lies strictly inside the cell of each even-length prefix |
| DecoderTheorems.CentreOnGlobe | maidenhead.php:112-130 | the decoded centre of a well-formed locator lies strictly inside (-90, 90) x (-180, 180) |
| DecoderTheorems.DecodeInsideCells | maidenhead.php:73-130 | `loc2latlon` of a locator that is well formed once normalised returns a point strictly inside every prefix cell and the globe |
| DecoderTheorems.NormalizeLower | maidenhead.php:73 | a locator and its lower-case form normalise to the same string |
| DecoderTheorems.DecodeIgnoresCase | maidenhead.php:73-78 | a locator and its lower-case form decode identically, errors included |
| LocatorExamples.TailPair | maidenhead.php:38-54 | one loop iteration on known values |
| LocatorExamples.DigitPair | maidenhead.php:45-48 | a digit pair and its carries on known working values |
| LocatorExamples.LetterPair | maidenhead.php:49-52 | a letter pair and its carries on known working values |
| LocatorExamples.NewYorkField | maidenhead.php:28-35 | the New York position has field FN and leaves working values 3.107444 and 0.645246 |
| LocatorExamples.NewYorkTail | maidenhead.php:38-54 | from those values the loop appends 30CP54SU86 |
| LocatorExamples.NewYorkEncodes | maidenhead.php:10 | (40.645246, -73.785112) encodes to FN30CP54SU86 at the default precision |
| LocatorExamples.NewYorkLonOffset | maidenhead.php:84-110 | the longitude sum of FN30CP54SU86 |
| LocatorExamples.NewYorkLatOffset | maidenhead.php:84-110 | the latitude sum of FN30CP54SU86 |
| LocatorExamples.NewYorkCentre | maidenhead.php:112-130 | the centre of FN30CP54SU86 is (40 + 74333/115200, -74 + 12377/57600) |
| LocatorExamples.NewYorkNormal | maidenhead.php:73 | FN30CP54SU86 is already trimmed and upper case |
| LocatorExamples.NewYorkDecodes | maidenhead.php:66 | FN30CP54SU86 decodes to (40.645251736..., -73.785121527...) |
| LocatorExamples.NorthPoleOutOfClass | maidenhead.php:28-33 | with no range check, latitude 90 gives the field letter S, outside A-R |
| LocatorExamples.DecodesOffGlobe | maidenhead.php:76-85 | the decoder checks only the length: ZZ decodes to (165, 330) |
| LocatorExamples.FirstSquareCentre | maidenhead.php:84-117 | a two-pair locator AA with a square read as 00 decodes to (-89.5, -179) |
| LocatorExamples.LettersInDigitPair | maidenhead.php:88-89 | `intval` of a letter is 0, so AAXX decodes exactly like AA00 |
| Sun.OrUtc | sun.php:50 | `?: 'UTC'` never returns a falsy string, replaces exactly the falsy identifiers with UTC and returns every other identifier unchanged |
| Sun.NearestTimezone | sun.php:14-51 | UTC when no zone is located (including no zones); otherwise the first located zone of least distance |
| Sun.FirstNearestUnique | sun.php:44-47 | with the strict comparison, the zone chosen is unique |
| Sun.RoundedMinute | sun.php:59-65 | the rounded time is a minute of the day, 0..1439 |
| Sun.Clock | sun.php:67 | `sprintf('%02d:%02d')` of the hour and minute of a minute of the day (a definition; ClockShape and ClockInjective state its form) |
| Sun.ClockShape | sun.php:67 | the result is five characters "HH:MM" whose fields read back as an hour below 24 and a minute below 60 |
| Sun.ClockInjective | sun.php:67 | different minutes of the day give different strings |
| Sun.FormatTimeRounded | sun.php:53-68 | `formatTimeRounded` returns the clock string of the rounded minute of the day |
| Sun.RoundsDown | sun.php:55-67 | under 30 seconds, the hour and minute are kept |
| Sun.RoundsUp | sun.php:59-65 | from 30 seconds the minute advances; minute 60 becomes 00 and the hour advances modulo 24 |
| Sun.MidnightWrap | sun.php:59-65 | 23:59:30 becomes "00:00" |
| Sun.Condition | sun.php:135-137 | "Normal" iff not both sunrise and sunset are null; otherwise "Polar Day" iff the altitude is positive, "Polar Night" iff negative, "Undet" iff missing or zero |
| Sun.TrimEach | sun.php:92 | `array_map('trim', ...)` trims each entry in place |
| Sun.DropFalsy | sun.php:92 | `array_filter` keeps exactly the non-falsy values, and no more entries than it is given |
| Sun.Picked | sun.php:92 | the trimmed, non-falsy, lower-cased pieces (a definition; PickedAppend states it piece by piece) |
| Sun.SelectedColumns | sun.php:90-93 | the columns selected by the parameter, or the defaults when no piece remains (a definition; SelectedMembers, SelectedPiece, SelectedJoin, SelectedClean and SelectIdempotent state its properties) |
| Sun.LowerEach | sun.php:92 | `array_map('strtolower', ...)` lower-cases each entry in place |
| Sun.KeptMembers | sun.php:92 | the filtered entries are the trims of the pieces that do not trim to a falsy string |
| Sun.LoweredMembers | sun.php:92 | the lower-cased list holds exactly the lower-case forms of its input |
| Sun.PickedAppend | sun.php:92 | the pieces are picked one by one, in order: picks of ps + qs are those of ps then those of qs, and one piece gives [] or its trimmed, lower-cased form |
| Sun.SelectedPiece | sun.php:90-93 | a parameter without commas selects its trimmed, lower-cased self, or the defaults when it trims to a falsy string |
| Sun.SelectedJoin | sun.php:90-93 | when both sides name columns, the selection of a + "," + b is that of a followed by that of b, repeats included |
| Sun.SelectedMembers | sun.php:90-93 | the defaults when every piece trims to a falsy string; otherwise exactly the trimmed, lower-cased, non-falsy pieces |
| Sun.LowerKeeps | sun.php:92 | lower-casing keeps trimmable characters, commas and falsiness |
| Sun.SelectedClean | sun.php:90-93 | the selection is never empty, and each column is non-falsy, comma-free, trimmed and lower case |
| Sun.DefaultsClean | sun.php:90 | the fourteen default columns are clean |
| Sun.SelectClean | sun.php:90-93 | selecting from the comma-join of clean columns gives them back |
| Sun.SelectIdempotent | sun.php:90-93 | the selection applied to its own comma-joined output changes nothing |
| Sun.Headers | sun.php:160-162 | date and condition, the columns without later duplicates, then latitude and longitude (a definition; HeadersShape states its shape) |
| Sun.HeadersShape | sun.php:160-162 | the headers are date and condition, the columns without later duplicates in first-occurrence order, then latitude and longitude |

## Left out

- Floating point: the codec is modelled over exact reals, so the rounding of PHP doubles through the repeated scaling by 24 and 10 is not modelled. The round trip holds in exact arithmetic.
- Php.IntVal: returns an unbounded integer. PHP's `intval` of a float outside the 64-bit integer range does not truncate, so for coordinates of magnitude around 1.8e20 and beyond the PHP locator differs from the model's. For the coordinates the codec is meant for, the 64-bit range is never reached.
- distancebearing.php (haversine and Vincenty distances, initial bearing): trigonometric floating-point numerics, which have no counterpart here. distancebearing.php is not part of this model.
- The `is_string` check of `loc2latlon` (maidenhead.php:70-72): Dafny's types make the argument a string.
- `floatval` of the position's elements (maidenhead.php:25-26): the elements are reals already. A PHP array with other keys than 0 and 1 is not modelled; the position is a sequence.
- PHP arrays are modelled as lists. `array_filter` keeps the keys of the entries it keeps, and the model renumbers them. sun.php reads the selection only through `?:`, `array_merge` and `in_array`, which see the values in order, so nothing depends on the keys.
- The example at maidenhead.php:135-142: its values appear only as the New York example lemmas.
- PHP strings are byte strings; here they are sequences of characters, and `strtoupper`/`strtolower` change ASCII letters only, as in PHP 8.2 and later.
- Maidenhead.CellCorner: the source's sequence of independent `if ($N >= ...)` blocks is written as nested blocks. They behave the same, because a length of at least k + 2 is also at least k. The accumulation is a separate method, and `loc2latlon` returns a `LatLon` value instead of a two-element array.
- Sun.NearestTimezone: the time-zone database is a parameter. This covers `DateTimeZone::listIdentifiers`, the country-code choice at sun.php:16-18 and `getLocation`; the zones arrive as identifiers with an optional location. The spherical distance at sun.php:38-42 is a function parameter, and the initial `INF` is the absence of a distance.
- Sun.FormatTimeRounded: `DateTime::format` is outside the model; the method takes the hour, minute and second as integers in their ranges.
- Sun.Condition: the SunCalc library is outside the model; its answers are parameters (whether sunrise and sunset are null, and the altitude or its absence).
- The request handling of sun.php: `$_GET` parsing, the five-day `DateTime` range, the rows built with `in_array` and `setTimezone`, the JSON/CSV output, `http_response_code`/`exit` and `error_log`. These are I/O and calls into the SunCalc library.
