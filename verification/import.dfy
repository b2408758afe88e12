/** `load_transactions_from_file`: open the file, go through the records
    the csv reader yields, decode each one, insert it for the given account
    and count it; the first failure (opening, reading a record, the date,
    the insert) ends the import with an error, and rows inserted before it
    stay inserted. The reader is built with the csv crate's defaults, so the
    first line of the file is a header it consumes: the records here are
    the ones after it. */
module Import {
  import opened Primitives
  import opened Records
  import opened Store
  import Money

  /** A record the loop turns into a transaction: it was read and its date
      parses. */
  predicate Decodable(row: Result<Record>, parseDate: DateParser) {
    row.Ok? && |row.value| >= MIN_FIELDS && parseDate(row.value[DATE_FIELD]).Some?
  }

  /** The number of leading records that are decodable: the import cannot
      get past this point. */
  function DecodablePrefix(rows: seq<Result<Record>>, parseDate: DateParser): (n: nat)
    ensures n <= |rows|
    ensures forall i | 0 <= i < n :: Decodable(rows[i], parseDate)
    ensures n < |rows| ==> !Decodable(rows[n], parseDate)
  {
    if rows == [] || !Decodable(rows[0], parseDate) then 0
    else 1 + DecodablePrefix(rows[1..], parseDate)
  }

  /** What the source demands so that the import does not panic: every
      record has the six fields the decoder indexes (the csv reader reports
      a record whose length differs from the header's as a read error, so
      this is a property of the header), the amounts of the records the
      loop decodes stay within `i64`, and the counter stays within `u32`. */
  predicate Importable(rows: seq<Result<Record>>, parseDate: DateParser) {
    (forall i | 0 <= i < |rows| :: rows[i].Ok? ==> |rows[i].value| >= MIN_FIELDS)
    && (forall i | 0 <= i < DecodablePrefix(rows, parseDate) :: Money.NoPanic(rows[i].value[AMOUNT_FIELD]))
    && |rows| <= U32_MAX
  }

  /** The transactions of the decodable prefix, in file order. */
  function DecodeAll(rows: seq<Result<Record>>, parseDate: DateParser): (txs: seq<NewTransaction>)
    requires Importable(rows, parseDate)
    ensures |txs| == DecodablePrefix(rows, parseDate)
    ensures forall i | 0 <= i < |txs| :: Decode(rows[i].value, parseDate) == Ok(txs[i])
  {
    var n := DecodablePrefix(rows, parseDate);
    seq(n, i requires 0 <= i < n => Decode(rows[i].value, parseDate).value)
  }

  /** The record the loop is at satisfies what decoding it demands. */
  lemma RecordSafeAt(rows: seq<Result<Record>>, parseDate: DateParser, i: nat)
    requires Importable(rows, parseDate) && i <= DecodablePrefix(rows, parseDate) && i < |rows|
    ensures rows[i].Ok? ==> |rows[i].value| >= MIN_FIELDS && AmountSafe(rows[i].value, parseDate)
  {
  }

  /** A decodable record the loop reaches lies inside the decodable prefix. */
  lemma DecodableInsidePrefix(rows: seq<Result<Record>>, parseDate: DateParser, i: nat)
    requires i <= DecodablePrefix(rows, parseDate) && i < |rows| && Decodable(rows[i], parseDate)
    ensures i < DecodablePrefix(rows, parseDate)
  {
  }

  lemma PrefixExtended<T>(s: seq<T>, i: nat)
    requires i < |s|
    ensures s[..i + 1] == s[..i] + [s[i]]
  {
  }

  /** The body of the import loop for one record: `row?`, the decoding,
      and `insert_transaction`. A record that cannot be read or whose date
      does not parse stores nothing; a decodable one is stored for the
      account unless the insert fails first. */
  method LoadRecord(db: Database, accountId: Text, row: Result<Record>, parseDate: DateParser)
    returns (r: Result<Transaction>)
    requires db.Valid()
    requires row.Ok? ==> |row.value| >= MIN_FIELDS && AmountSafe(row.value, parseDate)
    modifies db
    ensures db.Valid() && db.accounts == old(db.accounts) && old(db.nextId) <= db.nextId
    ensures !Decodable(row, parseDate) ==>
      db.rows == old(db.rows) && r.Err? && r.error in {ReadFailed, BadDate} && (r.error == ReadFailed <==> row.Err?)
    ensures Decodable(row, parseDate) && r.Err? ==> r.error == StoreFailed
    ensures r.Ok? || db.rows != old(db.rows) ==> Decodable(row, parseDate)
    ensures db.rows == old(db.rows) || db.rows == old(db.rows) + [Row(old(db.nextId), accountId, Decode(row.value, parseDate).value)]
    ensures r.Ok? ==> db.rows == old(db.rows) + [Row(old(db.nextId), accountId, Decode(row.value, parseDate).value)]
    ensures accountId !in db.accounts ==> db.rows == old(db.rows) && r.Err?
  {
    if row.Err? {
      return Err(ReadFailed);
    }
    var record := row.value;
    var date := parseDate(record[DATE_FIELD]);
    if date.None? {
      return Err(BadDate);
    }
    var amount := Money.ParseCents(record[AMOUNT_FIELD]);
    var transaction := NewTransaction(date.value, record[DESCRIPTION_FIELD], amount.value, record[STATUS_FIELD]);
    r := db.InsertTransaction(transaction, accountId);
  }

  /** The import has gone through the first `i` records and `after` is the
      table: it is `before` followed by one row per record gone through,
      holding that record's transaction, for the account, with an
      identifier issued during the import. */
  ghost predicate Progress(
    rows: seq<Result<Record>>, parseDate: DateParser, accountId: Text,
    before: seq<Row>, firstId: nat, after: seq<Row>, i: nat)
    requires Importable(rows, parseDate)
  {
    i <= DecodablePrefix(rows, parseDate)
    && |after| == |before| + i && after[..|before|] == before
    && Pendings(after[|before|..]) == DecodeAll(rows, parseDate)[..i]
    && (forall k | |before| <= k < |after| :: after[k].accountId == accountId && firstId <= after[k].id)
  }

  /** What an import of `rows` that found the table holding `before` leaves
      behind (`after`) and returns (`r`):
      - the table keeps `before` and appends to it the decoded records, in
        file order, from the first one on, for the account, each with an
        identifier issued during the import;
      - success means every record was stored and the count is their number;
      - a read or date failure stops at the first record that is not
        decodable, after storing all before it, and the error tells which
        of the two it was;
      - an import that stops before the end of the decodable prefix does so
        because an insert failed, and an insert fails only at a decodable
        record. */
  ghost predicate Outcome(
    rows: seq<Result<Record>>, parseDate: DateParser, accountId: Text,
    before: seq<Row>, firstId: nat, after: seq<Row>, r: Result<u32>)
    requires Importable(rows, parseDate)
  {
    |before| <= |after| && after[..|before|] == before
    && var added := after[|before|..];
    Pendings(added) <= DecodeAll(rows, parseDate)
    && (forall k | 0 <= k < |added| :: added[k].accountId == accountId && firstId <= added[k].id)
    && (r.Ok? ==> |added| == |rows| && r.value as int == |rows|)
    && (r.Err? ==> r.error != OpenFailed)
    && (r.Err? && r.error != StoreFailed ==>
          |added| == DecodablePrefix(rows, parseDate) < |rows|
          && (r.error == ReadFailed <==> rows[|added|].Err?))
    && (r.Err? && |added| < DecodablePrefix(rows, parseDate) ==> r.error == StoreFailed)
    && (r == Err(StoreFailed) ==> 0 < DecodablePrefix(rows, parseDate))
  }

  /** Storing the next record's transaction advances the import by one. */
  lemma ProgressStored(
    rows: seq<Result<Record>>, parseDate: DateParser, accountId: Text,
    before: seq<Row>, firstId: nat, stored: seq<Row>, i: nat, id: nat)
    requires Importable(rows, parseDate)
    requires Progress(rows, parseDate, accountId, before, firstId, stored, i)
    requires i < |rows| && Decodable(rows[i], parseDate) && firstId <= id
    ensures Progress(rows, parseDate, accountId, before, firstId,
                     stored + [Row(id, accountId, Decode(rows[i].value, parseDate).value)], i + 1)
  {
    var txs := DecodeAll(rows, parseDate);
    var after := stored + [Row(id, accountId, Decode(rows[i].value, parseDate).value)];
    DecodableInsidePrefix(rows, parseDate, i);
    assert after[|before|..] == stored[|before|..] + [after[|after| - 1]];
    assert after[..|before|] == stored[..|before|];
    PrefixExtended(txs, i);
  }

  /** An import that got through every record succeeds with their number. */
  lemma ProgressFinished(
    rows: seq<Result<Record>>, parseDate: DateParser, accountId: Text,
    before: seq<Row>, firstId: nat, after: seq<Row>, count: u32)
    requires Importable(rows, parseDate)
    requires Progress(rows, parseDate, accountId, before, firstId, after, |rows|)
    requires count as int == |rows|
    ensures Outcome(rows, parseDate, accountId, before, firstId, after, Ok(count))
  {
  }

  /** An import whose next record failed ends as `Outcome` says, whether the
      failure stored the record (an insert whose read-back failed) or not. */
  lemma ProgressFailed(
    rows: seq<Result<Record>>, parseDate: DateParser, accountId: Text,
    before: seq<Row>, firstId: nat, stored: seq<Row>, after: seq<Row>, i: nat, id: nat, e: Error)
    requires Importable(rows, parseDate)
    requires Progress(rows, parseDate, accountId, before, firstId, stored, i)
    requires i < |rows| && firstId <= id
    requires !Decodable(rows[i], parseDate) ==>
      after == stored && e in {ReadFailed, BadDate} && (e == ReadFailed <==> rows[i].Err?)
    requires Decodable(rows[i], parseDate) ==> e == StoreFailed
    requires after == stored
      || (Decodable(rows[i], parseDate) && after == stored + [Row(id, accountId, Decode(rows[i].value, parseDate).value)])
    ensures Outcome(rows, parseDate, accountId, before, firstId, after, Err(e))
  {
    if after != stored {
      ProgressStored(rows, parseDate, accountId, before, firstId, stored, i, id);
    }
  }

  /** Model of `load_transactions_from_file`. `source` is what `File::open`
      and `reader.records()` produce: `None` when the file cannot be opened,
      otherwise each record the reader yields or its read error. */
  method LoadTransactionsFromFile(
    db: Database, accountId: Text, source: Option<seq<Result<Record>>>, parseDate: DateParser)
    returns (r: Result<u32>)
    requires db.Valid()
    requires source.Some? ==> Importable(source.value, parseDate)
    modifies db
    ensures db.Valid() && db.accounts == old(db.accounts)
    ensures source.None? ==> r == Err(OpenFailed) && db.rows == old(db.rows)
    ensures source.Some? ==>
      Outcome(source.value, parseDate, accountId, old(db.rows), old(db.nextId), db.rows, r)
    ensures accountId !in db.accounts ==> db.rows == old(db.rows)
  {
    if source.None? {
      return Err(OpenFailed);
    }
    var rows := source.value;
    var count: u32 := 0;
    var i := 0;
    while i < |rows|
      invariant db.Valid() && db.accounts == old(db.accounts) && old(db.nextId) <= db.nextId
      invariant Progress(rows, parseDate, accountId, old(db.rows), old(db.nextId), db.rows, i)
      invariant count as int == i
      invariant accountId !in db.accounts ==> db.rows == old(db.rows)
    {
      ghost var stored := db.rows;
      ghost var id := db.nextId;
      RecordSafeAt(rows, parseDate, i);
      var loaded := LoadRecord(db, accountId, rows[i], parseDate);
      if loaded.Err? {
        ProgressFailed(rows, parseDate, accountId, old(db.rows), old(db.nextId), stored, db.rows, i, id, loaded.error);
        return Err(loaded.error);
      }
      ProgressStored(rows, parseDate, accountId, old(db.rows), old(db.nextId), stored, i, id);
      count := count + 1;
      i := i + 1;
    }
    ProgressFinished(rows, parseDate, accountId, old(db.rows), old(db.nextId), db.rows, count);
    r := Ok(count);
  }

  /** A successful import read every record, every date parsed, and the
      table gained exactly the decoded records, in file order. */
  lemma {:induction false} ImportSucceeded(
    rows: seq<Result<Record>>, parseDate: DateParser, accountId: Text,
    before: seq<Row>, firstId: nat, after: seq<Row>, n: u32)
    requires Importable(rows, parseDate)
    requires Outcome(rows, parseDate, accountId, before, firstId, after, Ok(n))
    ensures n as int == |rows| == |after| - |before|
    ensures forall i | 0 <= i < |rows| :: Decodable(rows[i], parseDate)
    ensures Pendings(after[|before|..]) == DecodeAll(rows, parseDate)
  {
    var added := after[|before|..];
    assert |Pendings(added)| <= |DecodeAll(rows, parseDate)|;
  }

  /** A record that cannot be read or whose date does not parse makes the
      import fail, and neither it nor any later record is stored. If every
      record before it is decodable and no insert failed, exactly those
      before it are stored and the error names the cause. */
  lemma {:induction false} ImportStopsAt(
    rows: seq<Result<Record>>, parseDate: DateParser, accountId: Text,
    before: seq<Row>, firstId: nat, after: seq<Row>, r: Result<u32>, j: nat)
    requires Importable(rows, parseDate)
    requires Outcome(rows, parseDate, accountId, before, firstId, after, r)
    requires j < |rows| && !Decodable(rows[j], parseDate)
    ensures r.Err? && |after| - |before| <= j
    ensures (forall i | 0 <= i < j :: Decodable(rows[i], parseDate)) && r.error != StoreFailed ==>
      |after| - |before| == j && (r.error == ReadFailed <==> rows[j].Err?) && (r.error == BadDate <==> rows[j].Ok?)
  {
    var added := after[|before|..];
    assert |Pendings(added)| <= |DecodeAll(rows, parseDate)|;
    if forall i | 0 <= i < j :: Decodable(rows[i], parseDate) {
      NoUndecodableBefore(rows, parseDate, j);
    }
  }

  /** The decodable prefix ends at the first record that is not decodable. */
  lemma {:induction false} NoUndecodableBefore(rows: seq<Result<Record>>, parseDate: DateParser, j: nat)
    requires j < |rows| && !Decodable(rows[j], parseDate)
    requires forall i | 0 <= i < j :: Decodable(rows[i], parseDate)
    ensures DecodablePrefix(rows, parseDate) == j
  {
    if j > 0 {
      NoUndecodableBefore(rows[1..], parseDate, j - 1);
    }
  }

  /** Importing no records succeeds with a count of 0 and stores nothing. */
  lemma ImportEmpty(
    parseDate: DateParser, accountId: Text, before: seq<Row>, firstId: nat, after: seq<Row>, r: Result<u32>)
    requires Importable([], parseDate)
    requires Outcome([], parseDate, accountId, before, firstId, after, r)
    ensures r == Ok(0) && after == before
  {
    assert after == after[..|before|];
  }
}
