/**
 * What one statement does to the rows of the policy table: a DELETE keeps
 * the rows that satisfy none of the conjunctions of its condition, an
 * UPDATE assigns to the rows that satisfy its condition and leaves the
 * others untouched. Outcomes of a statement are reduced to "succeeded" or
 * one of a few error kinds; a failed statement changes nothing.
 */
module Storage {
  import opened Schema
  import opened Query

  datatype Error =
    | BackendError        // whatever the database or the connection reports
    | NoSuchTable         // a statement against a table that does not exist
    | MissingWhereClause  // the ORM's guard against unconditioned UPDATE / DELETE
    | InvalidDatabase     // a database argument of an unsupported kind

  datatype Status = Ok | Failed(error: Error)

  /** The outcome of one statement against the table, given the backend's answer. */
  function StatementStatus(t: Table, backendOk: bool): (s: Status)
    ensures s.Ok? <==> t.Present? && backendOk
    ensures t.Absent? ==> s == Failed(NoSuchTable)
  {
    if t.Absent? then Failed(NoSuchTable)
    else if !backendOk then Failed(BackendError)
    else Ok
  }

  /* ---------- DELETE ---------- */

  /**
   * DELETE ... WHERE (c1) OR (c2) OR ...: the rows that satisfy no
   * conjunction remain, in their order; each surviving row keeps its
   * multiplicity, each matching row is gone.
   */
  function Delete(rows: seq<PolicyRule>, where: seq<Conjunction>): (kept: seq<PolicyRule>)
    ensures |kept| <= |rows|
  {
    if rows == [] then []
    else
      var last := rows[|rows| - 1];
      Delete(rows[..|rows| - 1], where) + (if SatisfiesAny(last, where) then [] else [last])
  }

  /** A row appended to the table is deleted or kept on its own merits; the rows before it are unaffected by it. */
  lemma {:induction false} DeleteSnoc(rows: seq<PolicyRule>, row: PolicyRule, where: seq<Conjunction>)
    ensures Delete(rows + [row], where) == Delete(rows, where) + (if SatisfiesAny(row, where) then [] else [row])
  {
    assert (rows + [row])[..|rows|] == rows;
  }

  /** Each matching row is gone; each other row keeps its multiplicity. */
  lemma {:induction false} DeleteCounts(rows: seq<PolicyRule>, where: seq<Conjunction>, row: PolicyRule)
    ensures multiset(Delete(rows, where))[row] == if SatisfiesAny(row, where) then 0 else multiset(rows)[row]
  {
    if rows != [] {
      var init := rows[..|rows| - 1];
      var last := rows[|rows| - 1];
      DeleteCounts(init, where, row);
      assert rows == init + [last];
    }
  }

  /** A delete whose condition no row satisfies leaves the rows exactly as they were. */
  lemma {:induction false} DeleteNothingMatches(rows: seq<PolicyRule>, where: seq<Conjunction>)
    requires forall k :: 0 <= k < |rows| ==> !SatisfiesAny(rows[k], where)
    ensures Delete(rows, where) == rows
  {
    if rows != [] {
      var init := rows[..|rows| - 1];
      var last := rows[|rows| - 1];
      DeleteNothingMatches(init, where);
      assert rows == init + [last];
    }
  }

  /** Deleting twice with one condition deletes nothing more. */
  lemma {:induction false} DeleteIdempotent(rows: seq<PolicyRule>, where: seq<Conjunction>)
    ensures Delete(Delete(rows, where), where) == Delete(rows, where)
  {
    var kept := Delete(rows, where);
    forall k | 0 <= k < |kept|
      ensures !SatisfiesAny(kept[k], where)
    {
      assert kept[k] in multiset(kept);
      DeleteCounts(rows, where, kept[k]);
    }
    DeleteNothingMatches(kept, where);
  }

  /* ---------- UPDATE ---------- */

  /**
   * UPDATE ... SET <the set columns of values> WHERE <conj>: each row that
   * satisfies the condition is assigned, every other row stays as it was,
   * and no row is added or removed.
   */
  function Update(rows: seq<PolicyRule>, where: Conjunction, values: PolicyRule): (updated: seq<PolicyRule>)
    ensures |updated| == |rows|
    ensures forall k :: 0 <= k < |rows| ==>
              updated[k] == if Satisfies(rows[k], where) then Assign(rows[k], values) else rows[k]
  {
    if rows == [] then []
    else
      var last := rows[|rows| - 1];
      Update(rows[..|rows| - 1], where, values) + [if Satisfies(last, where) then Assign(last, values) else last]
  }

  /** Every row the update touched now carries each column the update sets. */
  lemma {:induction false} UpdatedRowsCarryValues(rows: seq<PolicyRule>, where: Conjunction, values: PolicyRule, k: nat)
    requires k < |rows| && Satisfies(rows[k], where)
    ensures AgreesOnSetColumns(Update(rows, where, values)[k], values)
  {
    AssignEstablishesValues(rows[k], values);
  }

  /** Running the same update twice has the effect of running it once. */
  lemma {:induction false} UpdateIdempotent(rows: seq<PolicyRule>, where: Conjunction, values: PolicyRule)
    ensures Update(Update(rows, where, values), where, values) == Update(rows, where, values)
  {
    var once := Update(rows, where, values);
    var twice := Update(once, where, values);
    forall k | 0 <= k < |rows|
      ensures twice[k] == once[k]
    {
      if Satisfies(rows[k], where) {
        AssignIdempotent(rows[k], values);
      }
    }
  }

  /** An update whose condition no row satisfies leaves the rows exactly as they were. */
  lemma {:induction false} UpdateNothingMatches(rows: seq<PolicyRule>, where: Conjunction, values: PolicyRule)
    requires forall k :: 0 <= k < |rows| ==> !Satisfies(rows[k], where)
    ensures Update(rows, where, values) == rows
  {
    var updated := Update(rows, where, values);
    forall k | 0 <= k < |rows|
      ensures updated[k] == rows[k]
    {
    }
  }
}
