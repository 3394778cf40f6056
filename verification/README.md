# Validators, Enigma, Sea Battle and a product filter, in Dafny

This project models four self-contained pieces of logic from one repository of
exercises and proves properties of each.

* **A runtime validation library** (`8/validators`). A validator checks an
  untyped JavaScript value and answers `{ success, data?, errors? }`.
  * There are four leaf validators: string, number, boolean and date.
  * There are two containers. An object validator checks named fields and
    prefixes each error with `"key: "`. An array validator checks every element
    and prefixes each error with `"[i]: "`.
  * The `optional()` wrapper lets `undefined` and `null` through.
  * The model is a `Validator` datatype whose nodes carry their final builder
    configuration, and one pure, recursive `Engine.Validate`. JavaScript values
    are the `JsValue` datatype.
  * Regular-expression matching and `Date.parse` belong to the host, so they
    are parameters (`Engine.Host`). Numeric dates follow TimeClip
    (ECMA-262 section 21.4.1.31).
* **An Enigma machine** (`6/enigma.js`). It has rotors I, II and III,
  reflector B, a plugboard and double-stepping. The letter tables are proved
  to be permutations and an involution in `Wirings`. On top of that, `Enigma`
  proves that encryption is reciprocal and that no letter encrypts to itself.
* **Sea Battle rules** (`7/seabattle.js`):
  * coordinate parsing and formatting;
  * ships with their hit flags;
  * the board with attack resolution and the count of ships afloat;
  * the guess bookkeeping of a player;
  * the CPU's hunt/target state machine;
  * one draw of random ship placement.

  JavaScript's behaviour on odd inputs is modelled where the code relies on
  it: `parseInt` of a non-digit is NaN, a write through `grid[NaN]` throws, and
  `hits[i] = true` past the end of the array grows it.
* **A product filter** (`10/Program.cs`, lines 40-73). It covers `Normalize`,
  token-prefix name matching and the conjunctive `FilterProducts`. C#'s `null`
  is `Option`, and prices and ratings are `real`.

## Model

| member | source | states |
|---|---|---|
| ValidationResults.WellFormedShapes | 8/validators/types.ts:2-6 | a result is well formed exactly when it is a success with data and no errors, or a failure with a non-empty error list and no data |
| ValidationResults.Conclude | 8/validators/object-validator.ts:30-34 | the common ending of a validator fails with exactly the collected errors when there are any and otherwise succeeds with the data, always well formed |
| JsValues.LessIsStrictOrder | 8/validators/number-validator.ts:20-25 | JavaScript `<` on numbers is irreflexive, asymmetric, transitive and total off NaN, and every comparison with NaN is false |
| JsValues.StringOr | 8/validators/string-validator.ts:15 | `custom \|\| fallback` yields the custom message exactly when it is present and non-empty, and otherwise the fallback |
| StringValidator.Validate | 8/validators/string-validator.ts:11-38 | always well formed; success iff the input is a string meeting pattern, minimum and maximum length; the data is the input unchanged; a non-string gets exactly one error, the custom message or "Value must be a string"; a string gets one error per violated check |
| StringValidator.StringChecksAllReported | 8/validators/string-validator.ts:19-31 | every check runs: the pattern error comes first and carries the custom message, then the minimum-length error, and the maximum-length error comes last |
| StringValidator.CustomMessageScope | 8/validators/string-validator.ts:12-31 | setting a custom message changes only the type and pattern errors; length errors keep their fixed wording |
| StringValidator.EmptyMessageIsNoMessage | 8/validators/string-validator.ts:12-23 | an empty custom message behaves exactly like no message (the `\|\|` fallback) |
| StringValidator.LengthBoundsInclusive | 8/validators/string-validator.ts:25-31 | a length equal to `minLength` or to `maxLength` passes that bound |
| StringValidator.UnconfiguredAcceptsAnyString | 8/validators/string-validator.ts:33-37 | a fresh validator accepts every string, the empty one included, and returns it unchanged |
| StringValidator.BuildersOverwrite | 8/validators/string-validator.ts:40-58 | each builder overwrites its own setting (the last call wins) and builders on different settings commute |
| NumberValidator.Validate | 8/validators/number-validator.ts:10-33 | always well formed; success iff the input is a non-NaN number within both inclusive bounds, returned unchanged; a non-number or NaN gets exactly one error, the custom message or "Value must be a number"; a number gets the minimum error then the maximum error, each present iff violated |
| NumberValidator.CustomMessageOnlyForType | 8/validators/number-validator.ts:11-26 | the custom message replaces only the type error; for numbers the result does not depend on it |
| NumberValidator.UnconfiguredAcceptsNumbers | 8/validators/number-validator.ts:11-16 | with no bounds exactly the non-NaN numbers pass, Infinity included, and NaN fails |
| NumberValidator.BoundsInclusive | 8/validators/number-validator.ts:20-26 | a value equal to `min` or `max` passes that bound |
| NumberValidator.BothRangeErrors | 8/validators/number-validator.ts:18-28 | a value below `min` and above `max` (so `min > max`) gets both range errors, the minimum error first |
| NumberValidator.BuildersOverwrite | 8/validators/number-validator.ts:35-48 | `min`, `max` and `withMessage` overwrite their setting, and `min` and `max` commute |
| BooleanValidator.Validate | 8/validators/boolean-validator.ts:8-17 | success iff the input is a primitive boolean, returned unchanged; otherwise exactly one error, the custom message or "Value must be a boolean" |
| BooleanValidator.SurrogatesFail | 8/validators/boolean-validator.ts:9-14 | numbers, strings, null, undefined, arrays, plain objects and boxed objects all fail |
| DateValidator.Validate | 8/validators/date-validator.ts:8-30 | success iff the input is a Date, string or number that denotes a valid time; a Date input is returned as is and coerced inputs come back as the coerced Date; every failure is exactly one error, the custom message or "Value must be a valid date" |
| DateValidator.NumberRoundTrip | 8/validators/date-validator.ts:13-29 | a finite number within 8.64e15 passes as a Date with exactly that time value; any other number fails |
| DateValidator.OtherKindsFail | 8/validators/date-validator.ts:15-20 | every input that is not a Date, string or number fails with the single date error |
| Engine.Validate | 8/validators/types.ts:9-12 | `validate` is total over every validator and every input, and always returns a well-formed result |
| Engine.Optional | 8/validators/optional-validator.ts:14-16 | `optional()` always yields an optional validator |
| ObjectValidator.Combine | 8/validators/object-validator.ts:20-34 | after the field loop, the object passes iff every field passed (with the record of field data), and otherwise fails with exactly the errors collected behind their `"key: "` prefixes |
| ObjectValidator.RecordProjects | 8/validators/object-validator.ts:17-34 | when every field passes, the output has exactly the schema keys, each mapped to its field's validated data; undeclared input keys are dropped |
| ArrayValidator.Combine | 8/validators/array-validator.ts:19-33 | after the element loop, the array passes iff every element passed, with each element's data at its own index, and otherwise fails with exactly the errors collected behind their `"[i]: "` prefixes |
| ArrayValidator.IndexPrefixInjective | 8/validators/array-validator.ts:23 | different indices get different `"[i]: "` prefixes |
| ArrayValidator.SuccessesKeepOrder | 8/validators/array-validator.ts:16-25 | when every element passes, the pushed output has the input's length and element `i` is element `i`'s data |
| Aggregation.CollectEmptyIffAllSucceed | 8/validators/object-validator.ts:23-32 | the collected error list is empty exactly when every child succeeded |
| Aggregation.CollectCount | 8/validators/array-validator.ts:22-31 | the collected list holds exactly as many errors as the failing children report, and at least one per failing child |
| Aggregation.CollectAppend | 8/validators/object-validator.ts:20-28 | collecting over two runs of children concatenates their error lists, so child order is kept |
| Aggregation.CollectMembership | 8/validators/object-validator.ts:24 | an error is collected exactly when it is some failing child's error behind that child's prefix |
| Schema.String | 8/validators/schema.ts:12-14 | `Schema.string()` is a new string validator with nothing configured |
| Schema.Number | 8/validators/schema.ts:16-18 | `Schema.number()` is a new number validator with nothing configured |
| Schema.Boolean | 8/validators/schema.ts:20-22 | `Schema.boolean()` is a new boolean validator with no custom message |
| Schema.Date | 8/validators/schema.ts:24-26 | `Schema.date()` is a new date validator with no custom message |
| Schema.Object | 8/validators/schema.ts:28-30 | `Schema.object(s)` is the object validator over exactly the schema `s` |
| Schema.Array | 8/validators/schema.ts:32-34 | `Schema.array(v)` is the array validator over exactly the item validator `v` |
| Schema.FreshLeavesAcceptTheirKind | 8/validators/schema.ts:12-26 | a fresh `string()`, `number()`, `boolean()` or `date()` validator accepts exactly the values of its kind (non-NaN numbers, valid dates) and rejects the rest with the fixed type error |
| Schema.PersonSchemaCollectsAllErrors | 8/tests/schema.test.ts:134-152 | an object validator built with `Schema.object` reports every failing field: a record whose name is too short, whose age is negative and whose e-mail does not match gets exactly three errors, each behind its key, in schema order |
| ValidationProperties.ValidateSucceedsIffAccepts | 8/validators/types.ts:2-12 | `validate` succeeds exactly on the values an independent, declarative acceptance predicate admits (containers need every field or element to be acceptable) |
| ValidationProperties.ObjectRejectsNonObjects | 8/validators/object-validator.ts:9-14 | a non-object, null or array fails with exactly `["Value must be an object"]` |
| ValidationProperties.ObjectChecksEveryField | 8/validators/object-validator.ts:20-32 | every field is validated against `obj[key]` with no short-circuit; the object fails iff some field fails, and its errors are all fields' prefixed errors in schema order |
| ValidationProperties.ObjectErrorsArePathQualified | 8/validators/object-validator.ts:24 | an object's error is exactly some failing field's error behind `"key: "` |
| ValidationProperties.ObjectErrorCount | 8/validators/object-validator.ts:23-32 | the number of object errors is the sum of the failing fields' error counts |
| ValidationProperties.ObjectOutputProjects | 8/validators/object-validator.ts:17-34 | on success the output holds exactly the schema keys, each mapped to its field's data |
| ValidationProperties.EmptySchemaAcceptsObjects | 8/validators/object-validator.ts:20-34 | the empty schema accepts every non-null, non-array object and outputs `{}` |
| ValidationProperties.ArrayRejectsNonArrays | 8/validators/array-validator.ts:9-14 | a non-array fails with exactly `["Value must be an array"]` |
| ValidationProperties.ArrayChecksEveryItem | 8/validators/array-validator.ts:19-31 | every element is validated with no short-circuit; the array fails iff some element fails, with all prefixed errors in index order |
| ValidationProperties.ArrayErrorsAreIndexed | 8/validators/array-validator.ts:23 | an array's error is exactly some failing element's error behind `"[i]: "` |
| ValidationProperties.ArrayErrorCount | 8/validators/array-validator.ts:22-31 | the number of array errors is the sum of the failing elements' error counts |
| ValidationProperties.ArrayOutputKeepsOrder | 8/validators/array-validator.ts:16-33 | on success the output has the input's length, and element `i` is the validated data of input element `i` |
| ValidationProperties.EmptyArrayPasses | 8/validators/array-validator.ts:19-33 | an empty array passes with an empty output |
| ValidationProperties.OptionalItemsTurnNullIntoUndefined | 8/validators/array-validator.ts:20-25 | with an optional item validator, every null element comes out as undefined |
| ValidationProperties.ErrorsMeanFailure | 8/validators/types.ts:2-6 | a result that carries an error is a failure |
| ValidationProperties.NestedObjectPaths | 8/validators/object-validator.ts:24 | an error `e` of field `b` nested in field `a` surfaces as `"a: " + e` with `e` already carrying `"b: "`, so paths chain |
| ValidationProperties.ItemErrorSurfaces | 8/validators/array-validator.ts:23 | an error `e` of element `i` surfaces in the array's errors as `"[i]: " + e` |
| ValidationProperties.ArrayInObjectPaths | 8/validators/object-validator.ts:24 | an error of element `i` of the array in field `a` surfaces as `"a: [i]: " + e` |
| ValidationProperties.OptionalDelegates | 8/validators/optional-validator.ts:7-12 | undefined and null pass with undefined data without consulting the inner validator; any other value gets the inner result unaltered |
| ValidationProperties.OptionalIdempotent | 8/validators/optional-validator.ts:14-16 | `optional()` on an optional returns it, and a double wrapper behaves as a single one |
| ValidationProperties.OptionalAcceptsExactly | 8/validators/optional-validator.ts:7-12 | `optional(V)` accepts exactly what V accepts, plus undefined and null |
| Enigma.AlphabetIndexOf | 6/enigma.js:19 | `alphabet.indexOf(c)` is the letter's position for a capital and -1 for anything else |
| Enigma.AlphabetHoldsLetters | 6/enigma.js:115 | `alphabet.includes(c)` holds exactly for the capitals A-Z |
| Enigma.JsRem | 6/enigma.js:21 | JavaScript `%` takes the sign of the dividend and stays strictly inside the modulus |
| Enigma.ModIsEuclidean | 6/enigma.js:20-22 | for a positive modulus, `mod(n, m)` lies in [0, m) and is congruent to `n` |
| Enigma.RotorWiringsArePermutations | 6/enigma.js:24-28 | the wirings of rotors I, II and III are each a permutation of A-Z |
| Wirings.ReflectorTables | 6/enigma.js:30-40 | the thirteen reflector-B pairs agree with the reflector string, which pairs every letter with a different letter |
| Enigma.Step | 6/enigma.js:67-69 | stepping keeps wiring, notch and ring setting, lands in [0, 26), always changes the position, and wraps from 25 to 0 |
| Enigma.StepIsMod | 6/enigma.js:67-69 | the new position is `mod(position + 1, 26)` |
| Enigma.AtNotchReadsAlphabet | 6/enigma.js:70-72 | a rotor is at its notch exactly when the alphabet letter at its position is the notch letter |
| Enigma.NotchPositions | 6/enigma.js:24-28 | `atNotch` on rotors I, II and III holds at exactly one position each: 16 (Q), 4 (E) and 21 (V) |
| Enigma.Forward | 6/enigma.js:73-76 | through a permutation wiring the outward path gives a capital letter; the contact read is pinned by ForwardIsMod |
| Enigma.Backward | 6/enigma.js:77-80 | the return path always gives a capital letter; the letter is pinned by BackwardIsMod and the inverse lemmas |
| Enigma.ForwardIsMod | 6/enigma.js:73-76 | the outward path reads the wiring at `mod(indexOf(c) + position - ringSetting, 26)` |
| Enigma.BackwardIsMod | 6/enigma.js:77-80 | the return path reads the alphabet at `mod(wiring.indexOf(c) - position + ringSetting, 26)` |
| Enigma.BackwardInvertsForward | 6/enigma.js:73-80 | for a permutation wiring, `backward(forward(c)) == c` for every capital |
| Enigma.ForwardInvertsBackward | 6/enigma.js:73-80 | for a permutation wiring, `forward(backward(c)) == c` for every capital |
| Enigma.CreateReflector | 6/enigma.js:34-48 | every letter of every pair becomes a key of the map |
| Enigma.CreateReflectorFollowsTable | 6/enigma.js:42-45 | when every pair agrees with a table in both directions, each key of the built map is sent where the table says |
| Enigma.ReflectorIsInvolution | 6/enigma.js:30-50 | `REFLECTOR_MAP` has exactly the 26 capitals as keys, has no fixed point, and applying it twice gives the letter back |
| Enigma.Reflect | 6/enigma.js:127 | the reflector sends a capital to a different capital |
| Enigma.PlugboardSwap | 6/enigma.js:52-58 | a letter in no pair is unchanged, and a changed letter is one of the pair letters |
| Enigma.PlugboardSwapsPairs | 6/enigma.js:52-58 | with no letter cabled twice, both letters of every pair swap with each other |
| Enigma.PlugboardInvolution | 6/enigma.js:52-58 | with no letter cabled twice, swapping twice gives the letter back |
| Enigma.PlugboardKeepsLetters | 6/enigma.js:52-58 | a plugboard of capitals sends capitals to capitals |
| Enigma.NewMachine | 6/enigma.js:61-95 | the machine gets one rotor per id: slot i carries the wiring and notch of `ROTORS[rotorIDs[i]]` (a permutation), the i-th position and the i-th ring setting, or the `Rotor` default 0 where that array is shorter than the ids; the plugboard is kept |
| Enigma.NewMachinePadsWithZeros | 6/enigma.js:155-170 | through the `Rotor` defaults, short settings arrays build the same machine as arrays padded with zeros, so the prompt's answer "0" to both questions gives rotors I, II, III at position 0 with ring 0 |
| Enigma.StepRotors | 6/enigma.js:96-113 | the right rotor is replaced by its one-position step; the middle rotor is stepped iff the right or the middle rotor is at its notch; the left rotor is stepped iff the middle rotor is at its notch; each of these changes its position exactly when it steps; wirings, notches, ring settings and any further rotors are unchanged |
| Enigma.StepRotorsPositions | 6/enigma.js:67-69 | after stepping, the right rotor's position is `mod(p + 1, 26)`, and the middle and left positions are `mod(p + 1, 26)` under their double-stepping conditions and unchanged otherwise |
| Enigma.SingleStepExample | 6/enigma.test.js:90-100 | rotors I-II-III at 0-0-0: enciphering 'A' moves the right rotor to 1 and leaves the middle and left rotors at 0 |
| Enigma.DoubleStepExample | 6/enigma.test.js:102-113 | rotors I-II-III at 0-4-0 (middle rotor showing its notch E): enciphering 'A' moves the middle rotor to 5 and the left rotor to 1 |
| Enigma.StepRotorsKeepsReady | 6/enigma.js:96-113 | stepping keeps the machine able to encipher |
| Enigma.ForwardAll | 6/enigma.js:121-124 | passing right to left through permutation rotors keeps a capital a capital |
| Enigma.BackwardAll | 6/enigma.js:129-132 | passing left to right back through the rotors yields a capital |
| Enigma.BackwardAllInvertsForwardAll | 6/enigma.js:121-132 | the left-to-right return through all rotors undoes the right-to-left pass |
| Enigma.ForwardAllInvertsBackwardAll | 6/enigma.js:121-132 | the right-to-left pass undoes the left-to-right return |
| Enigma.SignalPathIsInvolution | 6/enigma.js:118-135 | for fixed rotor positions, the plugboard-rotors-reflector-rotors-plugboard path is an involution on capitals |
| Enigma.SignalPathHasNoFixedPoint | 6/enigma.js:118-135 | the signal path never sends a letter to itself |
| Enigma.EncryptChar | 6/enigma.js:114-138 | a non-letter is returned unchanged and leaves the rotors alone; a letter steps the rotors first and becomes a different capital |
| Enigma.EncryptCharReciprocal | 6/enigma.js:114-138 | from the same starting machine, enciphering the output gives back the input and the same next machine |
| Enigma.Run | 6/enigma.js:142-144 | enciphering a text character by character keeps its length and the plugboard |
| Enigma.Process | 6/enigma.js:139-145 | `process` keeps the length, and the empty text gives `""` with the machine untouched |
| Enigma.RunReciprocal | 6/enigma.js:142-144 | running the ciphertext from the same starting machine gives back the text and the same final machine |
| Enigma.RunLetters | 6/enigma.js:114-145 | in the output every letter became a different capital and every other character is unchanged |
| Enigma.CiphertextIsUpperCase | 6/enigma.js:139-145 | the output of `process` has no lower-case letters |
| Enigma.ProcessIsReciprocal | 6/enigma.js:139-145 | with identical settings and disjoint plugboard pairs, processing the ciphertext returns the upper-cased original |
| Enigma.NoLetterEncryptsToItself | 6/enigma.js:114-145 | no letter of the upper-cased message is enciphered as itself, and other characters pass through |
| Enigma.ProcessIgnoresCase | 6/enigma.js:139-145 | a text and its lower-cased form give the same ciphertext and final machine |
| Text.ToUpperIdempotent | 6/enigma.js:141 | upper-casing twice is upper-casing once |
| SeaCoordinates.ParseDigit | 7/seabattle.js:26-27 | `parseInt` of one character is a number exactly for a digit, and then that digit's value |
| SeaCoordinates.CellOf | 7/seabattle.js:133-134 | a name denotes a cell exactly when its first two characters are digits, and that cell is on the board |
| SeaCoordinates.ParseCoordinate | 7/seabattle.js:24-29 | null unless the input is present with length exactly 2; otherwise row and column are the digits read, and `isValid` holds iff both characters are digits |
| SeaCoordinates.CoordinateToString | 7/seabattle.js:31 | a board cell is written as its row digit followed by its column digit |
| SeaCoordinates.ParseCoordinateOfString | 7/seabattle.js:24-31 | formatting a board cell and parsing it back gives the cell, marked valid |
| SeaCoordinates.CoordinateStringOfParse | 7/seabattle.js:24-31 | a valid parse formats back to the text that was typed |
| SeaCoordinates.CellNameIsTwoDigits | 7/seabattle.js:31 | every board cell is named by two digits, and the name denotes the cell again |
| SeaCoordinates.CellNameInjective | 7/seabattle.js:31 | two board cells have the same name iff they are the same cell |
| SeaCoordinates.AdjacentCoordinates | 7/seabattle.js:33-38 | the result is exactly the board cells at distance one |
| SeaCoordinates.AdjacentCount | 7/seabattle.js:33-38 | a cell has 4 neighbours inside the board, 3 along an edge and 2 in a corner |
| SeaCoordinates.AdjacentDistinct | 7/seabattle.js:33-38 | no neighbour is listed twice |
| SeaCoordinates.OnBoardOnlyMembers | 7/seabattle.js:38 | the filter keeps exactly the cells that are on the board |
| SeaShip.NewShip | 7/seabattle.js:43-46 | a new ship has no locations and SHIP_LENGTH flags, all down |
| SeaShip.AddLocation | 7/seabattle.js:48-50 | after `addLocation` the ship holds the named cell, has one more location and the same flags |
| SeaShip.AddLocationKeepsSlots | 7/seabattle.js:48-55 | adding a location never moves a cell the ship already holds, so `isHit` reads the same for it |
| SeaShip.HasLocationIffFound | 7/seabattle.js:70-72 | `hasLocation` (`includes`) holds exactly when the `indexOf` search used by `hit` and `isHit` finds the cell |
| SeaShip.IsHitOnlyHeldCells | 7/seabattle.js:52-55 | only a cell the ship holds can read as hit, and nothing reads as hit while every flag is down |
| SeaShip.SinksWhenEveryCellHit | 7/seabattle.js:66-68 | a new ship is afloat, and a ship with SHIP_LENGTH distinct cells is sunk after each of its cells has been hit |
| SeaShip.SetFlag | 7/seabattle.js:60 | `hits[i] = true` raises flag `i`, keeps the others, and past the end grows the array with holes |
| SeaShip.Hit | 7/seabattle.js:57-64 | `hit` returns true iff the ship holds the cell, then marks it hit; it never moves locations and never lowers a flag |
| SeaShip.HitKeepsWellFormed | 7/seabattle.js:57-64 | a hit on a ship with SHIP_LENGTH flags and at most that many cells keeps that shape |
| SeaShip.SunkStaysSunk | 7/seabattle.js:57-68 | a sunk ship stays sunk whatever is hit |
| SeaShip.HitKeepsHits | 7/seabattle.js:52-64 | a hit never un-hits another cell |
| SeaShip.HitIdempotent | 7/seabattle.js:57-64 | hitting the same cell twice is the same as hitting it once |
| SeaShip.SunkIffEveryLocationHit | 7/seabattle.js:52-68 | a ship with SHIP_LENGTH distinct cells is sunk iff every one of its cells is hit |
| SeaBoard.NewBoard | 7/seabattle.js:77-81 | a new board is 10 x 10 water with no ships |
| SeaBoard.NewBoardIsWater | 7/seabattle.js:156-158 | every cell of a new board reads water |
| SeaBoard.WriteCell | 7/seabattle.js:87-89 | a write throws iff the row character is not a digit; otherwise exactly the named cell changes (nothing changes for a non-digit column) |
| SeaBoard.WriteCells | 7/seabattle.js:86-90 | drawing names throws iff some name has no row digit; otherwise exactly the named cells change |
| SeaBoard.PlaceShip | 7/seabattle.js:83-92 | the ship is appended to the fleet; a shown ship's cells read SHIP and a hidden ship leaves the grid alone; only a shown ship with a rowless name throws |
| SeaBoard.PlaceShipShows | 7/seabattle.js:83-92 | after placing, a cell of the ship reads SHIP when shown and is unchanged when hidden |
| SeaBoard.FirstShipAt | 7/seabattle.js:136-137 | the loop stops at the first ship holding the cell, or finds none |
| SeaBoard.ProcessAttack | 7/seabattle.js:132-150 | `isHit` iff some ship holds the cell; the first such ship takes the hit and `isSunk` reports it; `wasAlreadyHit` always equals `isHit`; the cell reads HIT or MISS and nothing else changes; a rowless name throws |
| SeaBoard.AttackMarksCell | 7/seabattle.js:139-148 | after an attack the attacked cell reads HIT or MISS as reported |
| SeaBoard.GetRemainingShips | 7/seabattle.js:152-154 | the count never exceeds the fleet; it is zero iff every ship is sunk and equals the fleet size iff no ship is sunk |
| SeaBoard.NoShipsRemainIffAllSunk | 7/seabattle.js:152-154 | no ships remain exactly when every ship is sunk, and the count never exceeds the fleet |
| SeaBoard.HitShipCount | 7/seabattle.js:136-145 | hitting one ship lowers the count by at most one, exactly when that ship goes from afloat to sunk |
| SeaBoard.AttackRemainingShips | 7/seabattle.js:132-154 | an attack never raises the ships remaining, lowers them by at most one, and when it does the result reports a sinking |
| SeaBoard.GetCell | 7/seabattle.js:156-158 | a symbol is read exactly for a cell on the board |
| SeaPlayers.SetupShips | 7/seabattle.js:215-220 | the ships join the board in order; hidden placement never throws and leaves the grid alone |
| SeaPlayers.NewPlayer | 7/seabattle.js:207-213 | a new player has no guesses and NUM_SHIPS more ships on the board |
| SeaPlayers.NewPlayerHasGuessedNothing | 7/seabattle.js:222-224 | `hasGuessed` is false for every cell on a new player |
| SeaPlayers.AddGuess | 7/seabattle.js:226-228 | the guess is appended after the earlier guesses, which are kept in order; board, name and visibility are unchanged |
| SeaPlayers.PlayerRemainingShips | 7/seabattle.js:230-232 | the player's count never exceeds their fleet and is zero iff every ship on their board is sunk |
| SeaPlayers.AddGuessRecords | 7/seabattle.js:222-228 | after `addGuess(c)`, `hasGuessed(x)` holds iff `x` is `c` or was guessed before, and nothing else changes |
| SeaPlayers.NewCpu | 7/seabattle.js:236-240 | a new CPU is hidden, hunting, with an empty queue and no guesses |
| SeaPlayers.HuntDraw | 7/seabattle.js:253-257 | the hunt loop returns a drawn cell that is not yet guessed, or nothing exactly when every draw was already guessed |
| SeaPlayers.HuntDrawIsFirst | 7/seabattle.js:253-257 | the cell returned is the first unguessed draw: every draw before it had already been guessed |
| SeaPlayers.MakeGuess | 7/seabattle.js:242-262 | the guess was never guessed before and is appended to the guesses; in target mode it comes from the queue, in hunt mode from the draws |
| SeaPlayers.TargetGuessIsQueueHead | 7/seabattle.js:245-250 | with the invariant, a targeting CPU with a non-empty queue fires at the queue head and drops it |
| SeaPlayers.AdjacentOf | 7/seabattle.js:265-274 | the neighbours computed are exactly the board cells next to the cell the coordinate names |
| SeaPlayers.EnqueueNew | 7/seabattle.js:276-281 | the queue only grows at its end, and every name added was neither guessed nor already queued |
| SeaPlayers.EnqueueNewMembers | 7/seabattle.js:276-281 | after the loop a name is queued iff it was queued before, or it is an offered name that was not guessed |
| SeaPlayers.EnqueueNewDistinct | 7/seabattle.js:276-281 | a duplicate-free queue stays duplicate-free |
| SeaPlayers.ProcessAttackResult | 7/seabattle.js:264-288 | a sinking resets to hunt with an empty queue; a hit switches to target and queues exactly the unguessed neighbours not already queued; a miss while targeting with an empty queue returns to hunt |
| SeaPlayers.NewCpuInvariant | 7/seabattle.js:236-240 | a new CPU satisfies the CPU invariant |
| SeaPlayers.ProcessAttackResultKeepsInvariant | 7/seabattle.js:264-288 | handling any attack result keeps the invariant: a hunting CPU has nothing queued, queued cells are distinct unguessed two-digit names, and no cell is guessed twice |
| SeaPlayers.TargetingKeepsInvariant | 7/seabattle.js:272-281 | queueing the neighbours of a hit keeps the invariant |
| SeaPlayers.MakeGuessKeepsInvariant | 7/seabattle.js:242-262 | guessing keeps the invariant, and with on-board draws every guess is a two-digit cell name |
| SeaPlacement.Cells | 7/seabattle.js:111-113 | a draw covers SHIP_LENGTH cells, all on the board when the start lies in the drawn ranges |
| SeaPlacement.AddLocations | 7/seabattle.js:124 | adding the drawn cells appends their names in order and leaves the flags alone |
| SeaPlacement.TryPlaceAsWritten | 7/seabattle.js:107-126 | as written, a draw is accepted exactly when every covered cell of the grid reads water |
| SeaPlacement.TryPlace | 7/seabattle.js:107-126 | corrected, a draw is accepted exactly when the covered cells read water and no placed ship occupies them |
| SeaPlacement.ShipOfPlaces | 7/seabattle.js:83-92 | a drawn ship can always be placed, shown or hidden |
| SeaPlacement.HiddenBoardAllowsOverlap | 7/seabattle.js:116 | as written, on a hidden board the same draw is accepted twice and the fleet overlaps; the corrected test rejects it |
| SeaPlacement.TryPlaceKeepsDisjoint | 7/seabattle.js:94-130 | with the corrected test, placing the ship keeps the fleet free of shared cells |
| SeaPlacement.AttackKeepsShadow | 7/seabattle.js:136-146 | an attack never raises a flag that an earlier ship's shared cell hides |
| SeaPlacement.AttackAll | 7/seabattle.js:132-150 | a run of attacks keeps the board well formed |
| SeaPlacement.ShadowedShipNeverSinks | 7/seabattle.js:136-154 | a ship with a cell shared with an earlier ship is never sunk, so at least one ship always remains |
| SeaPlacement.OverlapShadowsSecondShip | 7/seabattle.js:136-146 | in the overlap the draw allows, every cell of the second ship is shadowed |
| Normalization.TrimStart | 10/Program.cs:46 | the result is a suffix of the input that does not start with white space |
| Normalization.TrimStartDropsWhiteSpace | 10/Program.cs:46 | every character removed from the front is white space |
| Normalization.TrimEnd | 10/Program.cs:46 | the result is a prefix of the input that does not end with white space |
| Normalization.TrimEndDropsWhiteSpace | 10/Program.cs:46 | every character removed from the end is white space |
| Normalization.TrimCutsOnlyOuterWhiteSpace | 10/Program.cs:46 | `Trim` splits its input into a white-space prefix, the result and a white-space suffix, and the result neither starts nor ends with white space |
| Normalization.Clean | 10/Program.cs:44 | after lower-casing and deleting, only `[a-z0-9 ]` remains |
| Normalization.Collapse | 10/Program.cs:46 | no two spaces are adjacent, the result is empty iff the input is, and the first character and the character class are kept |
| Normalization.Normalize | 10/Program.cs:40-47 | the result has only `[a-z0-9 ]`, no leading, trailing or doubled space, and is `""` for null or blank input |
| Normalization.TrimIsNormal | 10/Program.cs:46 | trimming a cleaned, collapsed string gives a normal one |
| Normalization.SplitTrim | 10/Program.cs:51-52 | trimming does not change the words of a cleaned string |
| Normalization.SplitFromCollapse | 10/Program.cs:46 | collapsing spaces does not change the words |
| Normalization.SplitFromTokens | 10/Program.cs:51-52 | with empty entries removed, every word is non-empty and has no space |
| Normalization.BlankHasNoWords | 10/Program.cs:42 | a blank input has no words once cleaned |
| Normalization.NormalizeKeepsWords | 10/Program.cs:40-47 | the words of the normalised text are the words of the lower-cased, filtered text |
| Normalization.CollapseNoDoubleSpace | 10/Program.cs:46 | collapsing a string with no doubled space leaves it unchanged |
| Normalization.CleanKept | 10/Program.cs:44 | cleaning a string of `[a-z0-9 ]` leaves it unchanged |
| Normalization.NormalIsFixed | 10/Program.cs:40-47 | a normal string normalises to itself |
| Normalization.NormalizeIdempotent | 10/Program.cs:40-47 | normalising twice is normalising once |
| Normalization.CleanIgnoresCase | 10/Program.cs:44 | upper-casing first does not change the cleaned text |
| Normalization.NormalizeIgnoresCase | 10/Program.cs:40-47 | upper-casing first does not change the normalised text |
| ProductFilter.AnyStartsWith | 10/Program.cs:53 | true iff the token is a prefix of some product word |
| ProductFilter.AllCovered | 10/Program.cs:53 | true iff every search token is a prefix of some product word |
| ProductFilter.NameTokenMatch | 10/Program.cs:49-54 | a name matches iff every word of the normalised search is a prefix of some word of the normalised name |
| ProductFilter.NameTokenMatchMeaning | 10/Program.cs:49-54 | a name matches iff every word of the lower-cased, filtered search begins some word of the lower-cased, filtered name |
| ProductFilter.WordlessSearchMatchesAll | 10/Program.cs:49-54 | a search with no words matches every name, a missing one included |
| ProductFilter.NameMatchesItself | 10/Program.cs:49-54 | every name matches a search for itself |
| ProductFilter.NameMatchIgnoresCase | 10/Program.cs:49-54 | the match does not depend on the letter case of the search |
| ProductFilter.FewerWordsMatchMore | 10/Program.cs:53 | dropping trailing search words can only widen the match |
| ProductFilter.TrimmedNonBlank | 10/Program.cs:58-61 | cleaning the category list never lengthens it |
| ProductFilter.TrimmedNonBlankMembers | 10/Program.cs:58-61 | the cleaned list holds exactly the trimmed forms of the non-blank entries |
| ProductFilter.ValidCategories | 10/Program.cs:58-61 | a null list stays null, and otherwise the result holds exactly the trimmed non-blank entries |
| ProductFilter.TrimmedCategory | 10/Program.cs:68 | a null category stays null under `?.Trim()` |
| ProductFilter.AnyEqualsIgnoreCase | 10/Program.cs:68 | true iff some listed category equals the product's trimmed category ignoring case |
| ProductFilter.FilterProducts | 10/Program.cs:56-73 | the result is never longer, and a product is in it iff it is in the input and meets every criterion |
| ProductFilter.KeepMembers | 10/Program.cs:64-72 | `Where` keeps exactly the listed products that satisfy the predicate |
| ProductFilter.FilterKeepsOrderAndCount | 10/Program.cs:64-72 | the result is a subsequence of the input, and each matching product keeps its number of occurrences while others vanish |
| ProductFilter.FilterIdempotent | 10/Program.cs:64-72 | filtering twice with the same parameters is filtering once |
| ProductFilter.FilterCommutes | 10/Program.cs:64-72 | filtering by two parameter sets in either order gives the same list |
| ProductFilter.NoFilterKeepsAll | 10/Program.cs:64-72 | with no criterion set every product is kept, in order |
| ProductFilter.BlankCategoryIgnored | 10/Program.cs:58-61 | a null or blank category entry changes nothing |
| ProductFilter.SameCriteriaSameResult | 10/Program.cs:64-72 | two parameter sets that accept the same products give the same result |
| ProductFilter.CategoryIgnoresCaseAndSpaces | 10/Program.cs:58-68 | a product passes a one-entry category list when its category equals the entry up to letter case and surrounding white space |
| ProductFilter.FilterRespectsCriteria | 10/Program.cs:64-72 | a listed product is kept iff it meets each criterion that is set: price at most `maxPrice`, rating at least `minRating`, stock as asked, name matching, category admitted |

## Left out

- Console and terminal I/O. This covers `Display` and the game loop of Sea Battle (7/seabattle.js:162-203, 292-415), `promptEnigma` and the guard that calls it (6/enigma.js:148-178, 180-182), and `Main` of the product filter (10/Program.cs:75 onward, which calls a web API and reads JSON).
- The demo schemas of 8/validators/schema.ts:37-92, which only log to the console. 8/index.ts only re-exports. 9/Program.cs and 11/index.js are not part of this model.
- Randomness. `getRandomInt` and the coin flip become inputs:
  - `createRandomShip` is modelled one loop pass at a time (`SeaPlacement.TryPlace`, given the drawn `Placement`);
  - the hunt loop of `makeGuess` takes a finite list of drawn cells. If every draw was already guessed, the model returns `None` where the source would keep drawing.
- Regular-expression matching and `Date.parse` are functions of the host, passed in as parameters. The stateful `lastIndex` of `/g` patterns is not modelled.
- Object fields are read without prototype lookup. Schema keys are assumed distinct, in declaration order, with no integer-like keys that `Object.entries` would move to the front.
- Reference identity is not modelled. The same `Date` object is modelled as an equal value. Builders that return `this` are modelled by giving each validator node its final configuration.
- Floating point.
  - JavaScript numbers are integers plus NaN and the two infinities. A fractional number or bound is not representable.
  - Prices and ratings in the product filter are exact `real`s. They have no NaN and no rounding.
- Lengths are counted in `char`s. JavaScript's UTF-16 length is not modelled separately.
- Letter case is handled for ASCII only. This applies to `toUpperCase`, `ToLowerInvariant` and `OrdinalIgnoreCase`. Non-ASCII characters whose case mapping lands in ASCII are not modelled, for example:
  - `toUpperCase` maps dotless 'ı' to 'I' and long 'ſ' to 'S'. The source then enciphers them; the model passes them through unchanged.
  - `toUpperCase` maps 'ß' to "SS", so the source's ciphertext can be longer than its input. The equal-length promise of `Enigma.Process` holds only because case mapping here is ASCII-only.
  - `ToLowerInvariant` maps the Kelvin sign (U+212A) to 'k'. The source's `Normalize` keeps that letter; the model deletes it.
- `StartsWith` in `NameTokenMatch` uses the current culture. It is modelled as the ordinal prefix test. On the `[a-z0-9]` tokens that `Normalize` leaves, this agrees with the invariant culture and with cultures whose collation has no contractions over those letters. It does not agree with cultures that have such contractions:
  - Czech and Slovak treat "ch" as one letter, so `"chleba".StartsWith("c")` is false there; the model says true.
  - Danish and Norwegian treat "aa" as one letter, so a search word ending in a single "a" can fail to start a name word that begins with "aa" at that point.
- A `null` entry in the product list, which would make the C# code throw, is not modelled.
- The `normalizedNameContains` local in 10/Program.cs:62 is computed but never used, so it has no counterpart.
- JsValues.NumberToString: prints a finite number as its decimal digits, which is JavaScript's `String(n)` only for integers of magnitude at most 2^53. Above 2^53 JavaScript prints the shortest digits that round-trip to the same double (`String(2 ** 60)` is "1152921504606847000"), and from 1e21 on it switches to exponent form ("1e+21"). The model has no doubles to round to, so the range messages of `NumberValidator.Validate` and `StringValidator.Validate` follow the source only for bounds of magnitude at most 2^53.
- Enigma.NewMachine: rotor ids are 0-2 (`Enigma.RotorId`). Any other id makes `ROTORS[id]` undefined, so the source's constructor throws a TypeError reading `.wiring` (6/enigma.js:84-88). That error path is not modelled.
- Enigma machines need at least three rotors, each with a 26-letter wiring (`Enigma.Ready`). Positions and ring settings are integers, so NaN from a malformed prompt is not modelled.
- The reciprocity theorems (`Enigma.ProcessIsReciprocal` and its relatives) assume a plugboard of capital-letter pairs with no letter cabled twice (`Enigma.ValidPlugboard`). With a letter in two pairs, `plugboardSwap` is not an involution, and the property does not hold.
- A TypeError thrown part-way through a Sea Battle operation is modelled as `None`. The partial updates made before the throw are not kept.

## Findings

| source | as written | input that shows it | evidently intended | confidence | as-written member | corrected member |
|---|---|---|---|---|---|---|
| 7/seabattle.js:116 | `createRandomShip` accepts a draw when every covered grid cell reads water. A hidden board never writes its ships to the grid (`placeShip` with `showOnBoard` false, lines 83-92), so on the CPU's board the test always passes. A later ship can then share cells with an earlier one. In `processAttack` (lines 136-146) a shared cell always hits the earlier ship, so the later ship's flag for it is never raised. That ship can never sink, and `getRemainingShips` never reaches 0. | a hidden board that already holds the ship drawn as horizontal at row 0, column 0, when the next draw is the same placement | a draw is rejected when any covered cell belongs to a ship already placed, so the ships never overlap | high, not executed | SeaPlacement.HiddenBoardAllowsOverlap | SeaPlacement.TryPlaceKeepsDisjoint |
