/**
 * The policy table: its default name, its seven string columns, the row
 * record that mirrors them one to one, and the lifecycle of the table
 * itself (CREATE TABLE IF NOT EXISTS / DROP TABLE IF EXISTS).
 */
module Schema {

  /** Table name used when the adapter is configured with an empty one. */
  const DefaultTableName: string := "casbin_policy"

  /** Number of positional value columns v0..v5. */
  const FieldCount: nat := 6

  /** Declared widths: ptype VARCHAR(10), v0..v5 VARCHAR(256). */
  const PTypeWidth: nat := 10
  const ValueWidth: nat := 256

  type FieldIndex = i: nat | i < FieldCount

  datatype Column = PTypeColumn | ValueColumn(index: FieldIndex)

  /**
   * One stored row. Every column is NOT NULL DEFAULT '', which the type
   * reflects: a field is always a string, and a field nobody set is "".
   */
  datatype PolicyRule = PolicyRule(ptype: string, v0: string, v1: string, v2: string,
                                   v3: string, v4: string, v5: string)

  /** The record with only the policy type set: `&policyRule{PType: ptype}`. */
  function Unset(ptype: string): (r: PolicyRule)
    ensures r.ptype == ptype
    ensures forall i: FieldIndex :: Values(r)[i] == ""
  {
    PolicyRule(ptype, "", "", "", "", "", "")
  }

  /** The six positional columns v0..v5, in order. */
  function Values(r: PolicyRule): (vs: seq<string>)
    ensures |vs| == FieldCount
  {
    [r.v0, r.v1, r.v2, r.v3, r.v4, r.v5]
  }

  function Get(r: PolicyRule, c: Column): string
  {
    match c
    case PTypeColumn => r.ptype
    case ValueColumn(i) => Values(r)[i]
  }

  /** Two rows are equal exactly when they agree on all seven columns. */
  lemma {:induction false} RowDeterminedByColumns(a: PolicyRule, b: PolicyRule)
    ensures a == b <==> forall c: Column :: Get(a, c) == Get(b, c)
  {
    if forall c: Column :: Get(a, c) == Get(b, c) {
      assert Get(a, PTypeColumn) == Get(b, PTypeColumn);
      assert Get(a, ValueColumn(0)) == Get(b, ValueColumn(0));
      assert Get(a, ValueColumn(1)) == Get(b, ValueColumn(1));
      assert Get(a, ValueColumn(2)) == Get(b, ValueColumn(2));
      assert Get(a, ValueColumn(3)) == Get(b, ValueColumn(3));
      assert Get(a, ValueColumn(4)) == Get(b, ValueColumn(4));
      assert Get(a, ValueColumn(5)) == Get(b, ValueColumn(5));
    }
  }

  /**
   * What the schema accepts. The adapter never checks this; the database
   * enforces it on insert and update.
   */
  predicate FitsSchema(r: PolicyRule)
  {
    |r.ptype| <= PTypeWidth && forall i: FieldIndex :: |Values(r)[i]| <= ValueWidth
  }

  /** The column-name table `policyColumns`. */
  function ColumnName(c: Column): string
  {
    match c
    case PTypeColumn => "ptype"
    case ValueColumn(i) =>
      if i == 0 then "v0" else if i == 1 then "v1" else if i == 2 then "v2"
      else if i == 3 then "v3" else if i == 4 then "v4" else "v5"
  }

  function DigitChar(d: nat): char
    requires d < 10
  {
    "0123456789"[d]
  }

  /** Decimal rendering of a natural number, as `%d` prints it. */
  function Decimal(n: nat): (s: string)
    ensures |s| >= 1
    decreases n
  {
    if n < 10 then [DigitChar(n)] else Decimal(n / 10) + [DigitChar(n % 10)]
  }

  /** The column name `fmt.Sprintf("v%d", i)` builds for a value column. */
  function FormattedValueColumn(i: nat): string
  {
    "v" + Decimal(i)
  }

  /** The names built with "v%d" are the names of the column table. */
  lemma FormattedNamesAgree(i: FieldIndex)
    ensures FormattedValueColumn(i) == ColumnName(ValueColumn(i))
  {
  }

  /** Distinct columns have distinct names. */
  lemma ColumnNamesDistinct(c: Column, d: Column)
    ensures ColumnName(c) == ColumnName(d) <==> c == d
  {
  }

  /** The state of the policy table in the database. */
  datatype Table = Absent | Present(rows: seq<PolicyRule>)

  /** CREATE TABLE IF NOT EXISTS: keeps an existing table and its rows. */
  function CreateIfNotExists(t: Table): (r: Table)
    ensures r.Present?
    ensures t.Present? ==> r == t
    ensures t.Absent? ==> r.rows == []
  {
    if t.Present? then t else Present([])
  }

  /** DROP TABLE IF EXISTS: never fails on an absent table. */
  function DropIfExists(t: Table): (r: Table)
    ensures r.Absent?
  {
    Absent
  }

  lemma CreateIsIdempotent(t: Table)
    ensures CreateIfNotExists(CreateIfNotExists(t)) == CreateIfNotExists(t)
  {
  }

  lemma DropThenCreateIsEmpty(t: Table)
    ensures CreateIfNotExists(DropIfExists(t)) == Present([])
  {
  }
}
