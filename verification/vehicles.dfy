/**
 * The `vehicles` table both CSV loaders fill: its columns, the values a CSV
 * row carries, how PostgreSQL reads a `BIGINT` key from text, and the table
 * itself as a map from key to stored row.
 */
module VehicleStore {
  import opened Wrappers

  /** A CSV field as `csv.DictReader` hands it over: its text, or None when the line is shorter than the header. */
  type Field = Option<string>

  /** A CSV row keyed by header name. */
  type CsvRow = map<string, Field>

  /** A stored row: one value per insert column, None standing for SQL NULL. */
  type DbRow = map<string, Field>

  /** The columns of `vehicles`, in the order of the insert statements. */
  const Columns: seq<string> := [
    "id", "url", "region", "price", "year", "manufacturer", "model", "condition",
    "cylinders", "fuel", "odometer", "title_status", "transmission", "vin", "drive",
    "size", "type", "paint_color", "county", "state", "lat", "long"
  ]

  /** Python truthiness of a field: present and not the empty string. */
  predicate Truthy(v: Field)
  {
    v.Some? && v.value != ""
  }

  /** The smallest and largest `BIGINT`. */
  const MinBigint: int := -0x8000_0000_0000_0000
  const MaxBigint: int := 0x7FFF_FFFF_FFFF_FFFF

  predicate IsDigit(c: char)
  {
    '0' <= c <= '9'
  }

  predicate AllDigits(s: string)
  {
    forall k :: 0 <= k < |s| ==> IsDigit(s[k])
  }

  /** The number written by the decimal digits `s`. */
  function DigitsValue(s: string): nat
    requires AllDigits(s)
  {
    if s == [] then 0
    else DigitsValue(s[..|s| - 1]) * 10 + (s[|s| - 1] as int - '0' as int)
  }

  /**
   * PostgreSQL's reading of a text as a `BIGINT`: an optional sign and at
   * least one decimal digit, with a value inside the 64-bit range; anything
   * else is an error (None).
   */
  function ParseBigint(s: string): (r: Option<int>)
    ensures r.Some? ==> MinBigint <= r.value <= MaxBigint
  {
    var signed := |s| > 0 && (s[0] == '-' || s[0] == '+');
    var digits := if signed then s[1..] else s;
    if digits == [] || !AllDigits(digits) then None
    else
      var n: int := if signed && s[0] == '-' then -(DigitsValue(digits) as int) else DigitsValue(digits);
      if MinBigint <= n <= MaxBigint then Some(n) else None
  }

  /** The key a cleaned `id` value gives: NULL and malformed text give none. */
  function ParseId(v: Field): (r: Option<int>)
    ensures r.Some? ==> Truthy(v)
  {
    match v
    case None => None
    case Some(s) => ParseBigint(s)
  }

  /** The decimal digits of `n`, without leading zeros (`"0"` for zero). */
  function ShowNat(n: nat): (r: string)
  {
    if n < 10 then [('0' as int + n) as char]
    else ShowNat(n / 10) + [('0' as int + n % 10) as char]
  }

  /** `str(n)` for an integer. */
  function ShowInt(n: int): string
  {
    if n < 0 then "-" + ShowNat(-n) else ShowNat(n)
  }

  lemma {:induction false} ShowNatDigits(n: nat)
    ensures |ShowNat(n)| > 0 && AllDigits(ShowNat(n)) && ShowNat(n)[0] != '-' && ShowNat(n)[0] != '+'
    ensures DigitsValue(ShowNat(n)) == n
  {
    if n >= 10 {
      ShowNatDigits(n / 10);
      var s := ShowNat(n);
      assert s[..|s| - 1] == ShowNat(n / 10);
    }
  }

  /** Decimal text reads back as its number exactly when the number fits in 64 bits. */
  lemma ParseShown(n: int)
    ensures ParseBigint(ShowInt(n)) == if MinBigint <= n <= MaxBigint then Some(n) else None
  {
    var s := ShowInt(n);
    if n < 0 {
      ShowNatDigits(-n);
      assert s[0] == '-' && s[1..] == ShowNat(-n);
      assert -(DigitsValue(s[1..]) as int) == n;
    } else {
      ShowNatDigits(n);
      assert s == ShowNat(n);
    }
  }

  /** Every `BIGINT` written in decimal reads back as itself. */
  lemma ParseShowInt(n: int)
    requires MinBigint <= n <= MaxBigint
    ensures ParseBigint(ShowInt(n)) == Some(n)
  {
    ParseShown(n);
  }

  /** Text outside the 64-bit range is refused even when it is well formed. */
  lemma ParseOutOfRange(n: int)
    requires n > MaxBigint || n < MinBigint
    ensures ParseBigint(ShowInt(n)) == None
  {
    ParseShown(n);
  }

  /** `INSERT ... ON CONFLICT (id) DO NOTHING`: the row is stored under `id` only when the key is new. */
  function InsertOne(rows: map<int, DbRow>, id: int, row: DbRow): map<int, DbRow>
  {
    if id in rows then rows else rows[id := row]
  }

  /** A taken key leaves the table as it was; a new key adds exactly that entry. */
  lemma InsertOneEffect(rows: map<int, DbRow>, id: int, row: DbRow)
    ensures var r := InsertOne(rows, id, row);
      && (id in rows ==> r == rows)
      && (id !in rows ==> r.Keys == rows.Keys + {id})
      && (forall k :: k in rows ==> k in r && r[k] == rows[k])
      && (forall k :: k in r && k !in rows ==> k == id && r[k] == row)
  {
  }

  /** The `vehicles` table: stored rows by primary key. */
  class VehiclesTable {
    var rows: map<int, DbRow>

    constructor(initial: map<int, DbRow>)
      ensures rows == initial
    {
      rows := initial;
    }

    /** `SELECT 1 FROM vehicles WHERE id = %s`: whether a row has the key. */
    method Exists(id: int) returns (found: bool)
      ensures found <==> id in rows
    {
      found := id in rows;
    }

    /** A plain `INSERT`: it fails on a key already present, and then changes nothing. */
    method Insert(id: int, row: DbRow) returns (ok: bool)
      modifies this
      ensures ok <==> id !in old(rows)
      ensures rows == if ok then old(rows)[id := row] else old(rows)
    {
      if id in rows {
        ok := false;
      } else {
        rows := rows[id := row];
        ok := true;
      }
    }

    /** `INSERT ... ON CONFLICT (id) DO NOTHING`: the row is added only under a new key. */
    method InsertIfAbsent(id: int, row: DbRow)
      modifies this
      ensures rows == InsertOne(old(rows), id, row)
    {
      if id !in rows {
        rows := rows[id := row];
      }
    }
  }
}
