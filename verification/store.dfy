/** The SQLite `transactions` table behind `insert_transaction` and
    `get_transaction`, as an object whose rows the import appends to. The
    SQL itself is not modelled: an insert appends a row carrying a fresh
    identifier or fails, and a read joins a row with its account's name.
    Failures of the connection are outside the model's control, so the
    methods choose them arbitrarily. */
module Store {
  import opened Primitives
  import opened Records

  /** A row of the `transactions` table. */
  datatype Row = Row(id: nat, accountId: Text, transaction: NewTransaction)

  /** What `get_transaction` returns: a row joined with `accounts` for the
      account's name. */
  datatype Transaction = Transaction(
    id: nat,
    accountName: Text,
    transactionDate: Date,
    description: Text,
    amountCents: i64,
    status: Text)

  function Joined(row: Row, accountName: Text): Transaction {
    Transaction(row.id, accountName, row.transaction.transactionDate, row.transaction.description,
                row.transaction.amountCents, row.transaction.status)
  }

  /** The first row with the given identifier, if any. */
  function FindRow(rows: seq<Row>, id: nat): (r: Option<Row>)
    ensures r.Some? ==> r.value in rows && r.value.id == id
    ensures r.None? ==> forall i | 0 <= i < |rows| :: rows[i].id != id
  {
    if rows == [] then None
    else if rows[0].id == id then Some(rows[0])
    else FindRow(rows[1..], id)
  }

  /** The transactions of the rows, in order. */
  function Pendings(rows: seq<Row>): (txs: seq<NewTransaction>)
    ensures |txs| == |rows|
    ensures forall i | 0 <= i < |rows| :: txs[i] == rows[i].transaction
  {
    seq(|rows|, i requires 0 <= i < |rows| => rows[i].transaction)
  }

  class Database {
    /** The `accounts` table: account id to account name. */
    var accounts: map<Text, Text>
    /** The `transactions` table, in insertion order. */
    var rows: seq<Row>
    /** The next identifier `Uuid::now_v7` hands out: v7 identifiers are
        time-ordered, so each is larger than every earlier one. */
    var nextId: nat

    /** Identifiers are issued in increasing order and every row refers to
        an existing account (the foreign key). */
    ghost predicate Valid()
      reads this
    {
      (forall i | 0 <= i < |rows| :: rows[i].id < nextId && rows[i].accountId in accounts)
      && (forall i, j | 0 <= i < j < |rows| :: rows[i].id < rows[j].id)
    }

    constructor (accounts: map<Text, Text>)
      ensures Valid()
      ensures this.accounts == accounts && rows == [] && nextId == 0
    {
      this.accounts := accounts;
      rows := [];
      nextId := 0;
    }

    /** The `select .. join accounts .. where t.id = ?` of `get_transaction`. */
    function Lookup(id: nat): (r: Option<Transaction>)
      reads this
      requires Valid()
      ensures r.Some? ==> exists i | 0 <= i < |rows| :: rows[i].id == id && r.value == Joined(rows[i], accounts[rows[i].accountId])
      ensures r.None? ==> forall i | 0 <= i < |rows| :: rows[i].id != id
    {
      match FindRow(rows, id)
      case None => None
      case Some(row) => Some(Joined(row, accounts[row.accountId]))
    }

    /** Model of `get_transaction`: the row with that identifier joined
        with its account, or an error (no such row, or the query failed). */
    method GetTransaction(id: nat) returns (r: Result<Transaction>)
      requires Valid()
      ensures r.Ok? ==> Lookup(id) == Some(r.value)
      ensures Lookup(id).None? ==> r == Err(StoreFailed)
      ensures r.Err? ==> r.error == StoreFailed
    {
      var queried: bool := *;
      var found := Lookup(id);
      if !queried || found.None? {
        r := Err(StoreFailed);
      } else {
        r := Ok(found.value);
      }
    }

    /** Model of `insert_transaction`: a fresh identifier, the `insert`
        (which fails for an unknown account under the foreign key, or for
        any failure of the connection), then `get_transaction` on the new
        identifier, which may still fail after the row is stored. */
    method InsertTransaction(tx: NewTransaction, accountId: Text) returns (r: Result<Transaction>)
      requires Valid()
      modifies this
      ensures Valid() && accounts == old(accounts) && old(nextId) <= nextId
      ensures rows == old(rows) || rows == old(rows) + [Row(old(nextId), accountId, tx)]
      ensures accountId !in accounts ==> rows == old(rows) && r.Err?
      ensures r.Ok? ==> accountId in accounts && rows == old(rows) + [Row(old(nextId), accountId, tx)]
      ensures r.Ok? ==> r.value == Joined(Row(old(nextId), accountId, tx), accounts[accountId])
      ensures r.Err? ==> r.error == StoreFailed
    {
      var id := nextId;
      var executed: bool := *;
      if accountId !in accounts || !executed {
        r := Err(StoreFailed);
        return;
      }
      var row := Row(id, accountId, tx);
      assert FindRow(rows + [row], id) == Some(row) by {
        FindAppended(rows, row);
      }
      rows := rows + [row];
      nextId := nextId + 1;
      r := GetTransaction(id);
    }

    /** A row whose identifier is larger than every stored one is found
        after it is appended. */
    static lemma FindAppended(rows: seq<Row>, row: Row)
      requires forall i | 0 <= i < |rows| :: rows[i].id < row.id
      ensures FindRow(rows + [row], row.id) == Some(row)
    {
      if rows != [] {
        assert (rows + [row])[1..] == rows[1..] + [row];
        FindAppended(rows[1..], row);
      } else {
        assert (rows + [row])[0] == row;
      }
    }
  }

  /** Identifiers are unique: no two rows of a valid table share one. */
  lemma IdentifiersUnique(db: Database, i: nat, j: nat)
    requires db.Valid()
    requires i < |db.rows| && j < |db.rows| && i != j
    ensures db.rows[i].id != db.rows[j].id
  {
  }
}
