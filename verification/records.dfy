/** Decoding one csv record into a `NewTransaction`, by column position:
    field 0 is the date (`%Y-%m-%d`), field 2 the description, field 4 the
    amount (through `parse_cents`) and field 5 the status; fields 1 and 3
    are not read. A date that does not parse fails the row; an amount never
    does. */
module Records {
  import opened Primitives
  import Money

  /** chrono's `NaiveDate`, kept opaque: only its equality matters here. */
  datatype Date = Date(year: int, month: nat, day: nat)

  /** `NaiveDate::parse_from_str(_, "%Y-%m-%d")`, a library function the
      model takes as a parameter: `None` is its parse error. */
  type DateParser = Text -> Option<Date>

  /** One csv record: its fields, in order. */
  type Record = seq<Text>

  const DATE_FIELD: nat := 0
  const DESCRIPTION_FIELD: nat := 2
  const AMOUNT_FIELD: nat := 4
  const STATUS_FIELD: nat := 5
  /** Indexing a shorter record panics. */
  const MIN_FIELDS: nat := 6

  datatype NewTransaction = NewTransaction(
    transactionDate: Date,
    description: Text,
    amountCents: i64,
    status: Text)

  /** The amount field of a record whose date parses must not make
      `parse_cents` panic. */
  predicate AmountSafe(record: Record, parseDate: DateParser)
    requires |record| >= MIN_FIELDS
  {
    parseDate(record[DATE_FIELD]).Some? ==> Money.NoPanic(record[AMOUNT_FIELD])
  }

  /** The `NewTransaction { .. }` expression of the import loop, with its
      one `?` that can fail (the date). */
  function Decode(record: Record, parseDate: DateParser): (r: Result<NewTransaction>)
    requires |record| >= MIN_FIELDS && AmountSafe(record, parseDate)
    ensures r.Err? <==> parseDate(record[DATE_FIELD]).None?
    ensures r.Err? ==> r.error == BadDate
    ensures r.Ok? ==> r.value.amountCents as int == Money.Cents(record[AMOUNT_FIELD])
  {
    match parseDate(record[DATE_FIELD])
    case None => Err(BadDate)
    case Some(date) =>
      Ok(NewTransaction(
        date,
        record[DESCRIPTION_FIELD],
        Money.Cents(record[AMOUNT_FIELD]) as i64,
        record[STATUS_FIELD]))
  }

  /** A record laid out the way the export has it, with arbitrary filler in
      the two columns the decoder skips. */
  function Encode(tx: NewTransaction, dateText: Text, skipped1: Text, skipped3: Text): (record: Record)
    ensures |record| == MIN_FIELDS
  {
    [dateText, skipped1, tx.description, skipped3, Money.FormatCents(tx.amountCents as int), tx.status]
  }

  /** Decoding gives back the transaction an exported record was made
      from, whatever the skipped columns hold. */
  lemma DecodeEncode(tx: NewTransaction, dateText: Text, skipped1: Text, skipped3: Text, parseDate: DateParser)
    requires parseDate(dateText) == Some(tx.transactionDate)
    ensures var record := Encode(tx, dateText, skipped1, skipped3);
      AmountSafe(record, parseDate) && Decode(record, parseDate) == Ok(tx)
  {
    Money.CentsRoundTrip(tx.amountCents as int);
  }

  /** Only fields 0, 2, 4 and 5 matter: two records that agree on them
      decode alike. */
  lemma DecodeReadsOnlyItsFields(a: Record, b: Record, parseDate: DateParser)
    requires |a| >= MIN_FIELDS && |b| >= MIN_FIELDS
    requires AmountSafe(a, parseDate)
    requires a[DATE_FIELD] == b[DATE_FIELD] && a[DESCRIPTION_FIELD] == b[DESCRIPTION_FIELD]
    requires a[AMOUNT_FIELD] == b[AMOUNT_FIELD] && a[STATUS_FIELD] == b[STATUS_FIELD]
    ensures AmountSafe(b, parseDate) && Decode(a, parseDate) == Decode(b, parseDate)
  {
  }
}
