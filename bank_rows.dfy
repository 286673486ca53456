/** The bank_entries rows the repository hands to the service: each row goes
    through the camelCase mapper before the service reads its amount. */
module BankRows {
  import opened Outcomes
  import opened Mappers
  import opened BankLedger

  /** The column names the insert and the service use. */
  const YearColumn: string := "year"
  const AmountColumn: string := "amount_gco2eq"

  /** A bank_entries row as the database returns it, before the mapper:
      its id and the three columns the insert names. */
  function BankRow(id: string, ship: ShipId, e: BankEntry): (row: Json)
    ensures row.JObject? && |row.fields| == 4
  {
    JObject([Field("id", JStr(id)), Field("ship_id", JStr(ship)),
             Field(YearColumn, JNum(e.year as real)), Field(AmountColumn, JNum(e.amount))])
  }

  /** The number stored under `k` in an object, if there is one. */
  function NumberAt(obj: Json, k: string): (r: Option<real>)
    ensures r.Some? ==> obj.JObject? && Lookup(obj.fields, k) == Some(JNum(r.value))
  {
    if !obj.JObject? then None
    else match Lookup(obj.fields, k)
      case Some(JNum(x)) => Some(x)
      case _ => None
  }

  /** The service's read of an entry's amount, as written: the snake_case
      column name, on a row the mapper has already rewritten. */
  function AmountAsWritten(mapped: Json): Option<real>
  {
    NumberAt(mapped, AmountColumn)
  }

  /** As written, the amount of every mapped row reads as missing, so the
      service sums and compares values that are not numbers. */
  lemma {:induction false} AmountAsWrittenMissing(row: Json)
    requires row.JObject?
    ensures AmountAsWritten(ToCamelCase(row)) == None
  {
    assert AmountColumn[6] == '_' && AmountColumn[7] == 'g';
    SnakeKeyLost(row, AmountColumn, 6);
  }

  /** The corrected read of a mapped row: year and amount under the names
      the mapper gives the columns (`year` and `amountGco2eq`). */
  function EntryOf(mapped: Json): Option<BankEntry>
  {
    match (NumberAt(mapped, CamelKey(YearColumn)), NumberAt(mapped, CamelKey(AmountColumn)))
    case (Some(y), Some(a)) => Some(BankEntry(y.Floor, a))
    case _ => None
  }

  /** Corrected, the mapped row gives back the ledger entry it stores: the
      ledger's entries are what this read produces. */
  lemma {:induction false} EntryOfRoundTrip(id: string, ship: ShipId, e: BankEntry)
    ensures EntryOf(ToCamelCase(BankRow(id, ship, e))) == Some(e)
  {
    var row := BankRow(id, ship, e);
    var fs := row.fields;
    var yearKey, amountKey := CamelKey(YearColumn), CamelKey(AmountColumn);
    assert fs[2].key == YearColumn && fs[3].key == AmountColumn;
    // the two rewritten names differ in length: at most 4 against at least 7
    assert |yearKey| <= 4 && |amountKey| >= 7;
    LaterKeyWins(row, 4, amountKey);
    assert LastWithKey(fs, 4, amountKey) == 3;
    LaterKeyWins(row, 4, yearKey);
    assert LastWithKey(fs, 4, yearKey) == LastWithKey(fs, 3, yearKey) == 2;
  }
}
