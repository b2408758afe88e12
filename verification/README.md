# Transaction import of `budgeting`, in Dafny

This project models the import path of the `budgeting` application, found in
`src/transactions.rs`. The import path has three parts:

- `parse_cents` turns a decimal amount such as `-12.01` into a signed count
  of cents.
- The loop body of `load_transactions_from_file` decodes a csv record into a
  `NewTransaction`. Field 0 is the date, field 2 the description, field 4 the
  amount and field 5 the status.
- The loop of `load_transactions_from_file` goes through the records in
  order. It inserts each one for an account and counts it, and stops at the
  first failure. `insert_transaction` and `get_transaction` appear in the
  model as a table object.

Modules:

- `Primitives`: Rust's `i64` and `u32` as newtypes, so an overflow panic
  becomes a proof obligation. Also byte strings and the `Option`/`Result`
  wrappers.
- `IntParse`: `i64::from_str` (`ParseInt`) and its inverse `FormatInt`.
- `Pieces`: `str::split` on one byte (`Split`) and its inverse `Join`.
- `Money`: `parse_cents`.
  - `Cents` is the specification function.
  - The methods `Destructure` (the split and the padding loop) and
    `ParseCents` are proved to compute it.
  - The lemmas state the cases the source distinguishes, the literal test
    cases, and a round trip through `FormatCents`.
- `Records`: the decoding of one record (`Decode`) and a record layout that
  decodes back to its transaction (`Encode`).
- `Store`: the `transactions` table as a class `Database`.
  - `InsertTransaction` appends a row with a fresh identifier, then reads it
    back the way `get_transaction` does.
  - Either step may fail.
  - `Valid` holds that identifiers increase and that the account foreign key
    holds.
- `Import`: the loop body (`LoadRecord`) and the loop itself
  (`LoadTransactionsFromFile`).
  - `Outcome` states what a finished import leaves in the table and what it
    returns.
  - The lemmas after it draw the end-to-end consequences.

Text is modelled as its UTF-8 bytes: Rust's `len()` counts bytes, and the
slice `[..1]` is on bytes.

The record source is a parameter: `None` when `File::open` fails, otherwise
the sequence of records (or read errors) that `reader.records()` yields. The
date parser (`NaiveDate::parse_from_str`) is a parameter of type
`Text -> Option<Date>`. Failures of the database connection are chosen
arbitrarily inside the `Store` methods.

Fidelity notes:

- The reader is built with the csv crate's defaults, and these include a
  header row. The first line of the file is therefore consumed as a header
  and never imported. The model follows the code: its records are the ones
  after the header. A description of the import as having no header row
  would disagree with this.
- The defaults also make the reader reject a record whose length differs
  from the header's. "Every record the reader yields has at least six
  fields" is therefore a property of the header.
- A fraction longer than two digits is used unchanged, so `1.234` gives
  100 + 234 = 334 cents. The model keeps this behaviour as written
  (`Money.LongFractionExample`).

## Model

| member | source | states |
|---|---|---|
| Money.Destructure | src/transactions.rs:95-106 | The dollar text is the only piece or the first of two pieces, else `"0"`. The cents text is the second of two pieces right-padded with `0` to two bytes, else `"0"`. The padding loop is proved against this. |
| Money.ParseCents | src/transactions.rs:93-128 | On every input that does not panic, `parse_cents` returns `Ok`. Its value is `Cents(text)`: both segments are parsed with `i64::from_str` (a failure counts as 0), the cents are negated when the dollar text starts with `-`, and the result is dollars*100 + cents. |
| Money.CentsOfTwoSegments | src/transactions.rs:98-103 | For `d.f` with no other `.`, the dollar part is `d`, the cents part is `f` padded, and the amount is their combination. |
| Money.CentsOfWhole | src/transactions.rs:104-106 | Without a `.`, the amount is the parsed whole text times 100 (0 if it does not parse). |
| Money.CentsOfManyDots | src/transactions.rs:95-106 | With two or more `.`, both segments stay `"0"` and the amount is 0. |
| Money.ShortFractionPadded | src/transactions.rs:101-103 | A fraction shorter than two digits reads as if padded with `0` (`.2` reads as `.20`). |
| Money.LoneMinusNegates | src/transactions.rs:109-115 | A dollar text that is exactly `-` fails to parse and counts as 0, but still negates the fraction. |
| Money.NegatedAmount | src/transactions.rs:123-126 | Prefixing `-` to an unsigned amount negates the whole amount, cents included. The one exception is a dollar magnitude of exactly 2^63. |
| Money.CentsRoundTrip | src/transactions.rs:93-128 | For every `i64` amount, its canonical rendering `FormatCents` parses without panic back to that amount. |
| Money.CanonicalCase | src/transactions.rs:98-103 | A canonically rendered amount reads back as itself. |
| Money.WholeCase | src/transactions.rs:104-106 | A rendered integer without a `.` reads as that many dollars. |
| Money.LongFractionCase | src/transactions.rs:116 | A fraction of two or more digits is added (or subtracted) unchanged. |
| Money.CanonicalExamples | src/transactions.rs:175-176 | `0.23` gives 23 and `12.01` gives 1201. |
| Money.NegativeExamples | src/transactions.rs:177-178 | `-12.01` gives -1201 and `-0.01` gives -1. |
| Money.WholeExamples | src/transactions.rs:173-184 | `0`, `12`, `-12`, `2` and `-2` give 0, 1200, -1200, 200 and -200. |
| Money.PaddedExample | src/transactions.rs:174 | `1.0` gives 100. |
| Money.EmptyWholeExample | src/transactions.rs:181 | `.2` gives 20. |
| Money.LoneMinusExample | src/transactions.rs:182 | `-.02` gives -2. |
| Money.LongFractionExample | src/transactions.rs:100-103 | `1.234` gives 334, because the fraction is used unchanged. |
| Money.MalformedExamples | src/transactions.rs:109-122 | `x.5` gives 50, `3.x` gives 300 and `1.2.3` gives 0. A segment that does not parse counts as 0. |
| Money.ParseZero | src/transactions.rs:96-97 | The default segment `"0"` parses to 0. |
| IntParse.ParseFormat | src/transactions.rs:109 | `i64::from_str` gives back every `i64` from its decimal rendering. |
| IntParse.ParseIntAccepts | src/transactions.rs:109-110 | What `i64::from_str` accepts is a numeral whose value is the result, and it contains no `.`. |
| IntParse.ParseIntRejectsEmpty | src/transactions.rs:111-114 | The empty text, a lone `-` and a lone `+` are rejected. |
| IntParse.ParseIntNegated | src/transactions.rs:123-124 | A `-` before a digit string negates its parsed value, except at 2^63. |
| IntParse.ParseIntNegatedOther | src/transactions.rs:111-114 | A `-` followed by anything but a non-empty digit string is rejected. |
| IntParse.ParseNegatedDigits | src/transactions.rs:109 | `-` followed by the digits of any magnitude up to 2^63 parses to its negation. |
| IntParse.ParseTwoDigits | src/transactions.rs:116 | A two-digit rendering of a number below 100 parses to that number. |
| IntParse.DigitsValueOfDigits | src/transactions.rs:109 | The value of the decimal digits of `n` is `n`. |
| IntParse.TwoDigitsValue | src/transactions.rs:116 | The value of the two-digit rendering of `n` is `n`. |
| Pieces.Split | src/transactions.rs:95 | `split('.')` gives one more piece than there are `.`. No piece contains `.`, and joining the pieces with `.` gives back the text. |
| Pieces.SplitJoin | src/transactions.rs:95 | Splitting undoes joining pieces that contain no `.`. |
| Pieces.SplitWithout | src/transactions.rs:95 | A text without `.` is a single piece. |
| Pieces.SplitAfter | src/transactions.rs:95 | A `.` after a prefix without `.` ends the first piece. |
| Pieces.CountConcat | src/transactions.rs:95 | The number of `.` in a concatenation is the sum of the numbers in its parts. |
| Records.Decode | src/transactions.rs:80-85 | A record fails to decode exactly when its date does not parse, and then the error is a date error. Otherwise its amount is `Cents` of field 4. |
| Records.DecodeEncode | src/transactions.rs:80-85 | A record laid out as the export has it decodes back to the transaction it was made from, whatever columns 1 and 3 hold. |
| Records.DecodeReadsOnlyItsFields | src/transactions.rs:80-85 | Records that agree on fields 0, 2, 4 and 5 decode alike. |
| Store.FindRow | src/transactions.rs:37-39 | The row found has the identifier asked for; when none is found, no row has it. |
| Store.Database.Lookup | src/transactions.rs:29-39 | The joined row for an identifier exists exactly when a row has that identifier. |
| Store.Database.GetTransaction | src/transactions.rs:26-46 | When it succeeds, the result is the row with that identifier joined with its account's name. A missing row is an error. |
| Store.Database.InsertTransaction | src/transactions.rs:130-165 | It either leaves the table unchanged or appends exactly one row: the transaction for the account, under a fresh identifier larger than all earlier ones. An unknown account changes nothing and fails. Success means the row was stored and read back. Validity is preserved. |
| Store.Database.FindAppended | src/transactions.rs:164 | A row appended with an identifier larger than every stored one is found by it. |
| Store.IdentifiersUnique | src/transactions.rs:135 | No two rows of a valid table share an identifier. |
| Import.DecodablePrefix | src/transactions.rs:78-85 | The number of leading records that are read and whose date parses. The record after them is not decodable. |
| Import.DecodeAll | src/transactions.rs:80-85 | The decoded transactions of the decodable prefix, in file order. |
| Import.RecordSafeAt | src/transactions.rs:81-84 | Every record the loop reaches has six fields and an amount that does not make `parse_cents` panic. |
| Import.DecodableInsidePrefix | src/transactions.rs:78-85 | A decodable record the loop reaches lies inside the decodable prefix. |
| Import.LoadRecord | src/transactions.rs:79-86 | A read error or a bad date stores nothing and reports which of the two it was. A decodable record is either appended as its decoded transaction for the account or not, and a failure then is a store failure. Success means it was appended. An unknown account changes nothing. |
| Import.LoadTransactionsFromFile | src/transactions.rs:68-91 | A file that cannot be opened is an error and changes nothing. Otherwise the import ends as `Outcome` says: earlier rows are kept; the decoded records are appended in file order from the first one, with fresh identifiers, for the account; success counts every record; a read or date failure stops at the first undecodable record, after storing all records before it; an earlier stop is an insert failure. The table stays valid, and an unknown account gets no rows. |
| Import.ProgressStored | src/transactions.rs:86-88 | Storing the next record's transaction advances the import by one record. |
| Import.ProgressFinished | src/transactions.rs:90 | An import that got through every record returns their number. |
| Import.ProgressFailed | src/transactions.rs:79-86 | A failure at the next record ends the import as `Outcome` describes, whether or not the insert stored the row before its read-back failed. |
| Import.ImportSucceeded | src/transactions.rs:78-90 | A successful import read every record, every date parsed, the count is the number of records, and the table gained exactly the decoded records in order. |
| Import.ImportStopsAt | src/transactions.rs:79-81 | A record that cannot be read, or whose date does not parse, makes the import fail. Neither it nor any later record is stored. When every earlier record is decodable and no insert failed, exactly the earlier records are stored and the error names the cause. |
| Import.NoUndecodableBefore | src/transactions.rs:78-81 | The decodable prefix ends at the first record that is not decodable. |
| Import.ImportEmpty | src/transactions.rs:76-90 | Importing no records returns 0 and stores nothing. |

## Left out

- The GUI, the web view, the command line, and the account and bank
  functions: they are user interface and SQL plumbing around this core.
- `list_transactions`: a plain select with no logic of its own.
- The SQL text of the insert and select: the table is an object whose insert
  appends a row or fails.
- The `Uuid::now_v7` identifiers: the table issues increasing natural
  numbers instead. Only their uniqueness and order matter to the import.
- Connection failures, the `async` waits and the SQLite pool: a failure is
  chosen arbitrarily at each insert and read-back.
- The csv tokenising and quoting, and opening the file: the records are an
  input.
- `NaiveDate::parse_from_str`: a parameter, with `None` for its error.
- The `println!` logging at src/transactions.rs:87, :112 and :119: it has no
  effect on the result.
- The panics are preconditions, not modelled outcomes:
  - a record with fewer than six fields;
  - a first byte of the dollar text that does not start a UTF-8 character
    (slicing `[..1]` would panic);
  - `i64` overflow in `dollars * 100 + _cents`;
  - `u32` overflow of the counter.
- Import.LoadTransactionsFromFile: the no-panic precondition asks every
  record of the decodable prefix for a safe amount. An insert failure could
  end the import before a later unsafe amount is reached, so the
  precondition is stronger than the source strictly needs.
- Import.LoadTransactionsFromFile: anyhow's error messages and context are
  reduced to the error's origin (open, read, date, store).
