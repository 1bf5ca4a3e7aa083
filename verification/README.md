# Advent of Code 2020, days 2 to 5, in Dafny

This project models four puzzle solvers from a Rust Advent of Code 2020
repository and proves properties of the model.

- **Day 4, passport processing** (`2020/src/bin/04.rs`). A batch of records
  is separated by blank lines. Each record is a run of whitespace-separated
  `key:value` tokens. The permissive `Passport` counts as valid when the
  seven required fields (everything but `cid`) are non-empty. The
  `StrictPassport` parses each field into a typed value and checks it:
  - years within their range;
  - a height in `cm` or `in` with its own bounds;
  - a `#` plus six hex digits for the hair colour;
  - one of seven eye-colour codes;
  - a nine-digit passport id.

  Modules `Batch`, `Passports` and `Fields` cover this day.
- **Day 5, binary boarding** (`2020/src/bin/05.rs`). `seat_id` reads seven
  `F`/`B` letters and three `L`/`R` letters as binary digits and returns
  `row * 8 + column`. Part two looks for the first gap in the sorted list of
  ids. Module `Seats` covers this day.
- **Day 3, toboggan trajectory** (`2020/src/bin/03.rs`). A map of `.` and `#`
  repeats to the right. A slide moves by a fixed slope and wraps the column
  at the map's width until it leaves the bottom. `count_trees` counts the
  trees it meets. Module `Toboggan` covers this day.
- **Day 2, password philosophy** (`2020/src/bin/02.rs`). A line
  `n1-n2 c: password` becomes a policy and a password. The password is
  checked in two ways:
  - whether `c` occurs between `n1` and `n2` times;
  - whether exactly one of the 1-based positions `n1`, `n2` holds `c`.

  Module `Passwords` covers this day.

Module `Text` holds the string machinery the Rust standard library gives
the source:
- `split` on a string and on a character class;
- `split_whitespace`;
- `lines`;
- `parse::<i16>()` and `parse::<usize>()`.

Each of these is stated with its own contract.

Where the source panics (`unreachable!()`, `unwrap()`, an index out of
range), the model returns a typed error or states the precondition that
keeps the panic away. Day 4 has `AssemblyError` with `MalformedToken` and
`UnknownKey`. Day 3 returns the offending character. Day 2 has `LineError`.

One test disagrees with the code, and the model follows the code.
`valid_strict_examples` (04.rs:466-483) asserts 5 valid strict passports.
Its batch (04.rs:467-478) holds only four records, and the count of valid
records can never exceed the number of records (`Batch.NumberOfValid`).
`PassportExamples.AcceptedSampleTest` shows that the strict policy accepts
all four, reading the test's own text.

## Model

| member | source | states |
|---|---|---|
| Text.MapResults | 2020/src/bin/04.rs:29-31 | mapping an assembler over the pieces succeeds exactly when every piece assembles, keeps the length, and yields each piece's own result; otherwise it reports the first failing piece's error |
| Text.Split | 2020/src/bin/04.rs:29 | `split` on a separator gives at least one piece, no piece contains the separator, and joining the pieces with the separator gives back the input |
| Text.SplitOfJoin | 2020/src/bin/04.rs:29 | pieces free of the separator's first character, joined with the separator, split back into the same pieces |
| Text.SplitOfJoinAt | 2020/src/bin/04.rs:29 | pieces joined with the separator split back into the same pieces when the first occurrence after each piece is the separator that follows it and the last piece holds none |
| Text.SplitAny | 2020/src/bin/02.rs:82-85 | splitting on a character class gives at least one piece, and no piece holds a separator character |
| Text.SplitAnyCons | 2020/src/bin/02.rs:82-85 | a separator-free prefix followed by a separator becomes the first piece, and the rest splits on its own |
| Text.Words | 2020/src/bin/04.rs:66 | `split_whitespace` yields non-empty words that contain no whitespace |
| Text.WordsCoverText | 2020/src/bin/04.rs:66 | the words, concatenated, are exactly the non-whitespace characters of the input, in order |
| Text.WordsOfJoin | 2020/src/bin/04.rs:66 | words joined by one whitespace character split back into the same words |
| Text.WordsAroundSpace | 2020/src/bin/04.rs:66 | the words of two texts around a whitespace character are the words of the first followed by the words of the second, whichever whitespace character it is |
| Text.Lines | 2020/src/bin/03.rs:57 | `lines` gives pieces that hold no line feed |
| Text.LinesOfUnlines | 2020/src/bin/03.rs:57 | lines without line feeds or carriage returns, each terminated by a line feed, read back as the same lines |
| Text.ParseInteger | 2020/src/bin/04.rs:103-109 | a text parses exactly when it is an optional `+` (or `-`, for a signed type) followed by at least one decimal digit and nothing else, and the number it spells lies within the type's range; the result is that number, so leading zeros and a `+` are accepted |
| Text.ParseShowInt | 2020/src/bin/04.rs:103-109 | a number in range, written in decimal, parses back to itself |
| Text.ParseIntegerNeedsDigits | 2020/src/bin/04.rs:103-109 | text that starts with neither a digit nor a sign does not parse |
| Text.ParseI16 | 2020/src/bin/04.rs:104 | `parse::<i16>` accepts exactly the signed decimal texts whose value lies in -32768..=32767, and gives that value |
| Text.ParseUsize | 2020/src/bin/02.rs:92-93 | `parse::<usize>` accepts exactly the unsigned decimal texts whose value is below 2^64, and gives that value |
| Fields.YearFieldsAcceptTheirRange | 2020/src/bin/04.rs:103-171 | birth, issue and expiration years written in decimal are valid exactly within 1920-2002, 2010-2020 and 2020-2030 |
| Fields.YearFieldsRejectNonNumbers | 2020/src/bin/04.rs:103-171 | a year that does not parse as an `i16` is invalid |
| Fields.BirthYearValidIff | 2020/src/bin/04.rs:103-117 | a birth year is valid exactly when its text is an optionally signed decimal number in 1920..=2002 |
| Fields.IssueYearValidIff | 2020/src/bin/04.rs:130-144 | an issue year is valid exactly when its text is an optionally signed decimal number in 2010..=2020 |
| Fields.ExpirationYearValidIff | 2020/src/bin/04.rs:157-171 | an expiration year is valid exactly when its text is an optionally signed decimal number in 2020..=2030 |
| Fields.Height.Parse | 2020/src/bin/04.rs:190-210 | a height parses only when more than two characters long, its last two characters are the unit, and the rest parses as the amount; every such text with unit `cm` or `in` parses |
| Fields.HeightRoundTrip | 2020/src/bin/04.rs:190-223 | a written height parses back to itself, and it is valid exactly within 150-193 cm or 59-76 in |
| Fields.HeightValidIff | 2020/src/bin/04.rs:190-223 | a height is valid exactly when its text is more than two characters long and is an optionally signed decimal amount followed by `cm` with the amount in 150..=193 or by `in` with the amount in 59..=76 |
| Fields.ColourCodesAreValid | 2020/src/bin/04.rs:236-256 | `#` followed by any six lower-case hex digits is a valid hair colour |
| Fields.HexDigitsOfValue | 2020/src/bin/04.rs:240-256 | a string of hex digits, with its upper-case letters lowered, is the zero-padded hexadecimal rendering of the number it spells |
| Fields.HairColorValidIff | 2020/src/bin/04.rs:236-256 | a hair colour is valid exactly when, with its hex letters lowered, it is the `#rrggbb` code of some 24-bit colour; upper-case hex digits are accepted |
| Fields.EyeColor.Parse | 2020/src/bin/04.rs:280-293 | each of the seven codes parses to its colour, and anything else parses to no colour |
| Fields.EyeColorRoundTrip | 2020/src/bin/04.rs:259-297 | every eye colour's code parses back to that colour and is valid |
| Fields.EyeColorValidIff | 2020/src/bin/04.rs:280-297 | an eye colour is valid exactly when its text is one of the seven codes |
| Fields.PassportIdIffNineDigits | 2020/src/bin/04.rs:310-326 | a passport id is valid exactly when it is nine decimal digits |
| Fields.BirthYearExamples | 2020/src/bin/04.rs:412-415 | `2002` is a valid birth year and `2003` is not |
| Fields.SignedAndPaddedYears | 2020/src/bin/04.rs:103-117 | `02002` and `+1920` are valid birth years, because `parse::<i16>` admits leading zeros and a `+` |
| Fields.HeightExamples | 2020/src/bin/04.rs:418-423 | `60in` and `190cm` are valid heights; `190in` and `190` are not |
| Fields.HairColorExamples | 2020/src/bin/04.rs:426-430 | `#123abc` and `#123ABC` are valid hair colours; `#123abz` and `123abc` are not |
| Fields.EyeColorExamples | 2020/src/bin/04.rs:433-436 | `brn` is a valid eye colour and `wat` is not |
| Fields.PassportIdExamples | 2020/src/bin/04.rs:439-442 | `000000001` is a valid passport id and `0123456789` is not |
| Batch.Blocks | 2020/src/bin/04.rs:29 | the batch splits on blank lines into at least one block, none containing a blank line, and the blocks joined by blank lines are the input |
| Batch.BlocksOfRecords | 2020/src/bin/04.rs:29 | records that hold no empty line, separated by an empty line, are exactly the blocks, a final line feed staying with the last record |
| Batch.Parse | 2020/src/bin/04.rs:28-32 | a batch parses exactly when every block assembles; then there is one record per block, in order; otherwise the error is that of the first block that fails to assemble |
| Batch.NumberOfValid | 2020/src/bin/04.rs:34-36 | the number of valid records is at most the number of records; it equals it exactly when every record is valid, and is zero exactly when none is |
| Batch.NumberOfValidCountsPositions | 2020/src/bin/04.rs:34-36 | the number of valid records is the size of the set of positions holding a valid record |
| Batch.NumberOfValidMonotone | 2020/src/bin/04.rs:34-36 | of two equally long batches, the one whose validity holds at every position where the other's does has at least as many valid records |
| Batch.NumberOfValidAppend | 2020/src/bin/04.rs:34-36 | counting two runs of records one after the other gives the sum of their counts |
| Batch.EmptyInputIsOneBlock | 2020/src/bin/04.rs:29 | an empty batch is one empty block |
| Passports.KeyOf | 2020/src/bin/04.rs:68-77 | a name is recognised exactly when it is one of the eight key names, and it then names that key |
| Passports.ParsePair | 2020/src/bin/04.rs:67-78 | a token splitting into other than two pieces at `:` is malformed; an accepted token is the key's name, `:`, then a value without `:`; an unknown key is the text before the `:` |
| Passports.ParsePairRoundTrip | 2020/src/bin/04.rs:67-77 | a key name, `:` and any value without `:` parse back to that key and value |
| Passports.ParseTokens | 2020/src/bin/04.rs:66-80 | a record's tokens assemble exactly when every token parses, and then give one key and value per token, in order; otherwise the error is that of the first token that does not parse |
| Passports.RecordTextRoundTrip | 2020/src/bin/04.rs:63-83 | pairs whose values hold no `:` and no whitespace, written as `key:value` tokens separated by spaces, read back as the same pairs, and the text holds no line feed |
| Passports.Passport.Set | 2020/src/bin/04.rs:69-76 | storing a value changes that field alone |
| Passports.PassportValidIff | 2020/src/bin/04.rs:52-60 | a permissive passport is valid exactly when every required field is non-empty; `cid` plays no part |
| Passports.AssemblePassport | 2020/src/bin/04.rs:63-83 | a record assembles exactly when every whitespace-separated token parses as a pair; then a key that no token names has an empty field, and a named key's field holds the value of its last token |
| Passports.FilledSlots | 2020/src/bin/04.rs:64-81 | starting from the empty passport, an unnamed key's field stays empty and a named key's field holds the value of its last pair |
| Passports.FillKeepsUnmentioned | 2020/src/bin/04.rs:64-81 | a field that no token names keeps its previous value |
| Passports.FillLastWriteWins | 2020/src/bin/04.rs:66-79 | when a key appears several times, the last value wins |
| Passports.StrictPassport.Set | 2020/src/bin/04.rs:359-368 | storing a value re-parses that field alone: the key's field becomes the value parsed by that field's own parser (`cid` is kept as text), every other field is unchanged, and the field passes exactly when the value passes the key's rule |
| Passports.StrictPassportValidIff | 2020/src/bin/04.rs:341-350 | a strict passport is valid exactly when each of the seven typed fields is valid; `cid` plays no part |
| Passports.EmptyValueRejected | 2020/src/bin/04.rs:103-326 | no required field accepts the empty value |
| Passports.AssembleStrictPassport | 2020/src/bin/04.rs:353-373 | a record assembles strictly exactly when it assembles permissively; the strict passport is then valid exactly when every required field of the permissive reading, last token winning, passes its key's rule |
| Passports.FillMirrors | 2020/src/bin/04.rs:353-373 | storing the same pairs into a strict and a permissive record keeps every typed field passing exactly when the matching text field would pass that field's check |
| Passports.StrictValidIffFieldsAccept | 2020/src/bin/04.rs:341-373 | a strictly assembled record is valid exactly when the text of every required field, last write winning, passes that field's check; a required key that never appears makes it invalid |
| Passports.StrictImpliesPermissive | 2020/src/bin/04.rs:52-60 | a record valid under the strict rules is valid under the permissive ones |
| Passports.StrictCountAtMostPermissive | 2020/src/bin/04.rs:28-36 | a batch parses under one policy exactly when it parses under the other, with one passport per block, and the strict count of valid passports is at most the permissive count |
| Passports.EmptyInputIsOneInvalidPassport | 2020/src/bin/04.rs:28-36 | an empty batch is one passport, and it is invalid under both rules |
| Passports.EmptyValueInvalidatesPermissive | 2020/src/bin/04.rs:52-60 | a required key whose last value is empty makes the record invalid |
| Passports.CountryIdIgnored | 2020/src/bin/04.rs:341-350 | changing `cid` changes neither the permissive nor the strict verdict |
| Passports.BatchTextRoundTrip | 2020/src/bin/04.rs:28-83 | records written one per line, separated by empty lines, read back under either policy as one passport per record, each the empty passport with that record's pairs stored in order |
| Passports.LaidOutRecordRoundTrip | 2020/src/bin/04.rs:66-80 | a record written over several lines, tokens separated by spaces within a line, reads back as its pairs, line after line |
| Passports.LaidOutBatchRoundTrip | 2020/src/bin/04.rs:28-83 | records laid out over non-empty lines, separated by empty lines, with or without a final line feed, read back under either policy as one passport per record |
| PassportExamples.FirstSampleCount | 2020/src/bin/04.rs:380-396 | the four records of the `example` test read back as four passports, of which the permissive policy accepts 2 |
| PassportExamples.RejectedSampleCount | 2020/src/bin/04.rs:445-462 | the four records of `invalid_strict_examples` read back as four strict passports, of which the strict policy accepts none |
| PassportExamples.AcceptedSampleCount | 2020/src/bin/04.rs:465-483 | the four records of `valid_strict_examples` read back as four strict passports, all of which the strict policy accepts |
| PassportExamples.FirstSampleTest | 2020/src/bin/04.rs:380-396 | the text of the `example` test, with its line breaks inside records and its final line feed, parses into four passports, 2 of them valid |
| PassportExamples.RejectedSampleTest | 2020/src/bin/04.rs:445-462 | the text of `invalid_strict_examples`, line breaks included, parses into four strict passports, none of them valid |
| PassportExamples.AcceptedSampleTest | 2020/src/bin/04.rs:465-483 | the text of `valid_strict_examples`, line breaks included, parses into four strict passports, all four valid |
| Toboggan.Vec2.WrappingXAdd | 2020/src/bin/03.rs:36-40 | the new column is below the width and congruent to column plus step modulo the width; the row advances by the step |
| Toboggan.Map.At | 2020/src/bin/03.rs:80-86 | a position inside the map gives the square at its row and column; a position below the last row gives nothing |
| Toboggan.Cell | 2020/src/bin/03.rs:60-64 | `.` is open ground, `#` is a tree, and any other character is an error naming it |
| Toboggan.ParseRow | 2020/src/bin/03.rs:58-66 | a line parses exactly when all its characters are `.` or `#`, into one square per character, each written by that character; otherwise the error is the first other character |
| Toboggan.ParseMap | 2020/src/bin/03.rs:55-70 | a map parses exactly when every line does, one row per line; otherwise the error is the first character, line by line, that is neither `.` nor `#` |
| Toboggan.ParseRenderMap | 2020/src/bin/03.rs:55-70 | drawing a map as lines of `.` and `#` and parsing it gives back the map |
| Toboggan.Next | 2020/src/bin/03.rs:98-102 | one step moves down by the slope's dy with the column kept inside the width, and yields a square exactly when the new row is still on the map |
| Toboggan.RideLength | 2020/src/bin/03.rs:95-114 | from row y of a map of height h, the slide yields (h - 1 - y) / dy squares |
| Toboggan.RideVisitsSlope | 2020/src/bin/03.rs:95-103 | the k-th square yielded is the one k slope steps from the start, with the column taken modulo the width |
| Toboggan.RideFromCorner | 2020/src/bin/03.rs:108-114 | sliding from the top-left corner yields, for k = 1 up to (h - 1) / dy, the square at row k·dy and column k·dx mod width |
| Toboggan.TreesMatchSlope | 2020/src/bin/03.rs:18-30 | counting trees in the yielded squares equals counting trees on the first n points of the slope |
| Toboggan.CountTrees | 2020/src/bin/03.rs:18-30 | driving the slide to the bottom counts the trees at row k·dy, column k·dx mod width, for k = 1 up to (h - 1) / dy, so at most (h - 1) / dy of them |
| Toboggan.TreesAtMostLength | 2020/src/bin/03.rs:18-30 | no more trees are counted than squares visited |
| Toboggan.SampleMapHasSevenTrees | 2020/src/bin/03.rs:122-137 | on the example map, slope right 3 down 1 meets 7 trees |
| Seats.BinaryValueAppend | 2020/src/bin/05.rs:28-44 | reading letters as binary digits, appending more letters shifts the value left by their count and adds their value |
| Seats.ReadBits | 2020/src/bin/05.rs:28-44 | the halving loop computes the binary value of the first `width` letters, scaled up when fewer letters are read; letters past `width` must be zero bits and add nothing |
| Seats.SeatId | 2020/src/bin/05.rs:27-47 | the id is the first ten letters read as one binary number: the row in the upper seven bits, the column in the lower three, always below 1024 |
| Seats.RowAndColumn | 2020/src/bin/05.rs:46 | the id is the row times 8 plus the column, where the column is the letters after the seventh, up to the tenth, read as binary and padded with zero bits to three; the column part is below 8 |
| Seats.DecodeBoardingPass | 2020/src/bin/05.rs:27-47 | every id below 1024 is the id of the pass that writes it in binary |
| Seats.BoardingPassOfDecode | 2020/src/bin/05.rs:27-47 | writing a ten-letter pass's id back as a pass gives the same letters |
| Seats.DecodeInjective | 2020/src/bin/05.rs:27-47 | two ten-letter passes with the same id are equal |
| Seats.DecodeExamples | 2020/src/bin/05.rs:62-66 | `BFFFBBFRRR`, `FFFBBBFRRR` and `BBFFBBFRLL` have ids 567, 119 and 820 |
| Seats.AppendLKeepsId | 2020/src/bin/05.rs:37-44 | appending an `L` to an accepted pass keeps it accepted and keeps its id, whether it fills a missing column letter or follows the tenth letter |
| Seats.TrailingLExamples | 2020/src/bin/05.rs:37-44 | `FFFFFFFLLLL` has id 0 and `BFFFBBFRRRL` has id 567 |
| Seats.FindMissingSeat | 2020/src/bin/05.rs:10-22 | the search finds nothing exactly when the ids are consecutive; otherwise it returns first id + i for the first position i whose id breaks the run |
| Seats.GapIsFreeSeat | 2020/src/bin/05.rs:10-22 | for strictly increasing ids the gap found is absent from the list, its predecessor is present, and it lies strictly between the first and the last id |
| Passwords.OccurrencesCountsLetter | 2020/src/bin/02.rs:27-31 | the occurrence count of a one-character letter is its multiplicity in the password; a letter of any other length counts zero |
| Passwords.AcceptsRangeIff | 2020/src/bin/02.rs:27-33 | the sled-rental rule holds exactly when the letter's multiplicity lies within n1..n2 |
| Passwords.AcceptsPositionCases | 2020/src/bin/02.rs:35-46 | equal positions never accept, a multi-character letter never matches, and a position past the end counts as a mismatch |
| Passwords.AcceptsPositionIff | 2020/src/bin/02.rs:35-46 | the toboggan rule holds exactly when one of the two 1-based positions holds the letter and the other does not |
| Passwords.SledRentalIff | 2020/src/bin/02.rs:56-58 | a record with a one-character letter is valid for sled rental exactly when the letter occurs between n1 and n2 times in its password |
| Passwords.TobogganIff | 2020/src/bin/02.rs:60-62 | a record is valid for the toboggan exactly when its letter is one character and exactly one of its two 1-based positions holds it |
| Passwords.SampleRecords | 2020/src/bin/02.rs:2-5 | of the three sample lines, the first and third satisfy the sled-rental rule and only the first the toboggan rule |
| Passwords.ParseLine | 2020/src/bin/02.rs:76-96 | a line parses exactly when it splits on spaces and colons into at least four pieces and the first piece is two `usize` numbers joined by `-`; fewer pieces, a first piece without `-`, and a piece that is not a number each give their own error, the last naming the offending piece |
| Passwords.ParseFormatLine | 2020/src/bin/02.rs:76-96 | a record written as `n1-n2 c: password`, followed by anything that starts with a separator, parses back to the record |
| Passwords.LineWithoutSeparators | 2020/src/bin/02.rs:82-89 | a line without spaces or colons is rejected for having too few pieces |

## Left out

- The `main` functions' file reading and printing are left out. So are the part-one and part-two drivers: day 3's product over five slopes (03.rs:1-16) and day 5's maximum (05.rs:1-9). The model covers the functions they call.
- Day 1 (`2020/src/bin/01.rs`) is not part of this model.
- Toboggan.Vec2.WrappingXAdd: coordinates are unbounded naturals. A `usize` overflow in `self.0 + rhs.0` is not modelled.
- Seats.FindMissingSeat: ids are unbounded integers. The `i32` overflow of `first + idx` is not modelled.
- Seats.FindMissingSeat: the search takes any non-empty list of ids, and its contract describes the walk for every such list. The sort at 05.rs:11 belongs to the driver and is not modelled. `GapIsFreeSeat` needs the ids strictly increasing, because with a duplicate id the walk reports a taken seat. An empty list, where `sorted[0]` panics, is excluded.
- Seats.SeatId: the requires clause is the set of passes `seat_id` returns on: seven `F`/`B`, then `L`/`R` letters, with only `L` after the tenth letter. It panics on everything else: a pass shorter than seven letters (the slice `pass[0..7]`), an `R` after the tenth letter (the shift `2 - idx` goes below zero), and any other letter (`unreachable!()`).
- Passwords.AcceptsPositionCases: positions 0 are excluded by `n1, n2 >= 1`. In the source, `n - 1` underflows and panics there.
- Strings are sequences of characters. The source's byte lengths and byte slicing agree with this on ASCII text only.
- Toboggan.CountTrees: the requires clause is stricter than the source. It asks for a rectangular map with a non-empty first row and a slope with dy >= 1. The source's `width()` panics on an empty map, `% max` panics when the first row is empty, and a slide with dy = 0 never ends. But the source panics on a ragged map only when the slide reaches a row shorter than the column it lands on; rows it skips, or reaches within their length, may have any length. Such ragged maps are not modelled.
- Fields.ColourCodesAreValid: it states one direction, for lower-case codes. `Fields.HairColorValidIff` states the exact condition, upper-case hex digits included.
- PassportExamples.FirstSampleTest, RejectedSampleTest, AcceptedSampleTest: each test's text is given as its lines, each line as its `key:value` tokens (`PassportExamples.FirstLayout` and the others), and `Passports.LaidOutBatchText` writes them out. This matches the string the Rust literal denotes, where a `\` at the end of a source line drops the line break and the next line's indentation. The model does not spell out that string character by character. The 5 asserted at 04.rs:482 cannot be reached from four records.
- Text.Lines: a bare `\r` that ends an unterminated last line is kept, as current Rust's `str::lines` does. The Rust releases of 2020 dropped it. The repository pins no toolchain. On such input, day 3 reports `\r` as the error where older releases would read the row.
- The day 3 example map is built row by row from its pictures, not parsed from one string.
