/**
 * The conditions the adapter hands to the database, as a small typed query
 * builder: a conjunction is a list of column-equals-value constraints, and
 * a disjunction of conjunctions is what a chain of `Or` clauses builds.
 *
 * Semantics of the ORM that the adapter relies on (the ORM itself is not
 * part of this model):
 *   - `Where(map)` constrains every key of the map, empty values included;
 *   - `Where(struct)` constrains only the non-empty fields of the struct;
 *   - `Updates(struct)` writes only the non-empty fields of the struct.
 */
module Query {
  import opened Schema
  import opened Codec

  datatype Condition = Equals(column: Column, value: string)

  type Conjunction = seq<Condition>

  predicate Satisfies(row: PolicyRule, conj: Conjunction)
  {
    forall k :: 0 <= k < |conj| ==> Get(row, conj[k].column) == conj[k].value
  }

  predicate SatisfiesAny(row: PolicyRule, disj: seq<Conjunction>)
  {
    exists k :: 0 <= k < |disj| && Satisfies(row, disj[k])
  }

  lemma SatisfiesAppend(row: PolicyRule, a: Conjunction, b: Conjunction)
    ensures Satisfies(row, a + b) <==> Satisfies(row, a) && Satisfies(row, b)
  {
    if Satisfies(row, a) && Satisfies(row, b) {
      forall k | 0 <= k < |a + b|
        ensures Get(row, (a + b)[k].column) == (a + b)[k].value
      {
        if k >= |a| {
          assert (a + b)[k] == b[k - |a|];
        }
      }
    }
    if Satisfies(row, a + b) {
      forall k | 0 <= k < |a|
        ensures Get(row, a[k].column) == a[k].value
      {
        assert (a + b)[k] == a[k];
      }
      forall k | 0 <= k < |b|
        ensures Get(row, b[k].column) == b[k].value
      {
        assert (a + b)[|a| + k] == b[k];
      }
    }
  }

  /* ---------- conditions on the non-empty value columns of a record ---------- */

  /** The constraint on column vi that a record contributes: one when vi is set, none otherwise. */
  function ColumnCondition(r: PolicyRule, i: FieldIndex): Conjunction
  {
    if Values(r)[i] != "" then [Equals(ValueColumn(i), Values(r)[i])] else []
  }

  lemma ColumnConditionMeaning(row: PolicyRule, r: PolicyRule, i: FieldIndex)
    ensures Satisfies(row, ColumnCondition(r, i)) <==> (Values(r)[i] != "" ==> Values(row)[i] == Values(r)[i])
  {
    if Values(r)[i] != "" {
      assert ColumnCondition(r, i)[0].column == ValueColumn(i);
    }
  }

  /** The constraints on v0..v5 that both kinds of match build: one per non-empty column. */
  function ValueConditions(r: PolicyRule): Conjunction
  {
    ColumnCondition(r, 0) + ColumnCondition(r, 1) + ColumnCondition(r, 2)
    + ColumnCondition(r, 3) + ColumnCondition(r, 4) + ColumnCondition(r, 5)
  }

  /** `row` agrees with `r` on every value column that `r` sets. */
  predicate AgreesOnSetValues(row: PolicyRule, r: PolicyRule)
  {
    forall i: FieldIndex :: Values(r)[i] != "" ==> Values(row)[i] == Values(r)[i]
  }

  lemma {:induction false} ValueConditionsMeaning(row: PolicyRule, r: PolicyRule)
    ensures Satisfies(row, ValueConditions(r)) <==> AgreesOnSetValues(row, r)
  {
    var c0, c1, c2 := ColumnCondition(r, 0), ColumnCondition(r, 1), ColumnCondition(r, 2);
    var c3, c4, c5 := ColumnCondition(r, 3), ColumnCondition(r, 4), ColumnCondition(r, 5);
    SatisfiesAppend(row, c0 + c1 + c2 + c3 + c4, c5);
    SatisfiesAppend(row, c0 + c1 + c2 + c3, c4);
    SatisfiesAppend(row, c0 + c1 + c2, c3);
    SatisfiesAppend(row, c0 + c1, c2);
    SatisfiesAppend(row, c0, c1);
    ColumnConditionMeaning(row, r, 0);
    ColumnConditionMeaning(row, r, 1);
    ColumnConditionMeaning(row, r, 2);
    ColumnConditionMeaning(row, r, 3);
    ColumnConditionMeaning(row, r, 4);
    ColumnConditionMeaning(row, r, 5);
    if Satisfies(row, ValueConditions(r)) {
      forall i: FieldIndex | Values(r)[i] != ""
        ensures Values(row)[i] == Values(r)[i]
      {
      }
    }
  }

  /* ---------- deletePolicyRule ---------- */

  /**
   * The `where` map of `deletePolicyRule`: ptype always, vi only when
   * non-empty. The ptype entry is always there, so the delete is never
   * unconditioned.
   */
  function DeleteCondition(r: PolicyRule): (c: Conjunction)
    ensures c != [] && c[0] == Equals(PTypeColumn, r.ptype)
    ensures |c| <= 1 + FieldCount
  {
    [Equals(PTypeColumn, r.ptype)] + ValueConditions(r)
  }

  /**
   * A row is deleted for `r` exactly when its ptype equals r's and it
   * agrees with every non-empty value column of `r`; empty columns are
   * don't-care.
   */
  lemma {:induction false} DeleteConditionMeaning(row: PolicyRule, r: PolicyRule)
    ensures Satisfies(row, DeleteCondition(r)) <==> row.ptype == r.ptype && AgreesOnSetValues(row, r)
  {
    var head := [Equals(PTypeColumn, r.ptype)];
    assert Satisfies(row, head) <==> row.ptype == r.ptype by {
      assert head[0].column == PTypeColumn;
    }
    SatisfiesAppend(row, head, ValueConditions(r));
    ValueConditionsMeaning(row, r);
  }

  /** Every record matches its own delete condition. */
  lemma {:induction false} DeleteConditionMatchesItself(r: PolicyRule)
    ensures Satisfies(r, DeleteCondition(r))
  {
    DeleteConditionMeaning(r, r);
  }

  /* ---------- Where(struct) and Updates(struct) ---------- */

  /** `Where(struct)`: a constraint for each non-empty field, ptype included. */
  function StructCondition(r: PolicyRule): Conjunction
  {
    (if r.ptype != "" then [Equals(PTypeColumn, r.ptype)] else []) + ValueConditions(r)
  }

  /** `row` agrees with `r` on every column, ptype included, that `r` sets. */
  predicate AgreesOnSetColumns(row: PolicyRule, r: PolicyRule)
  {
    (r.ptype != "" ==> row.ptype == r.ptype) && AgreesOnSetValues(row, r)
  }

  lemma {:induction false} StructConditionMeaning(row: PolicyRule, r: PolicyRule)
    ensures Satisfies(row, StructCondition(r)) <==> AgreesOnSetColumns(row, r)
  {
    var head: Conjunction := if r.ptype != "" then [Equals(PTypeColumn, r.ptype)] else [];
    SatisfiesAppend(row, head, ValueConditions(r));
    ValueConditionsMeaning(row, r);
  }

  /** A struct condition is empty exactly when the record sets no column at all. */
  lemma {:induction false} StructConditionEmpty(r: PolicyRule)
    ensures StructCondition(r) == [] <==> r == Unset("")
  {
    if StructCondition(r) == [] {
      assert |ColumnCondition(r, 0)| == 0 && |ColumnCondition(r, 1)| == 0 && |ColumnCondition(r, 2)| == 0;
      assert |ColumnCondition(r, 3)| == 0 && |ColumnCondition(r, 4)| == 0 && |ColumnCondition(r, 5)| == 0;
      assert Values(r)[0] == "" && Values(r)[1] == "" && Values(r)[2] == "";
      assert Values(r)[3] == "" && Values(r)[4] == "" && Values(r)[5] == "";
    }
  }

  /** `Updates(struct)`: overwrite each column the struct sets, keep the others. */
  function Assign(row: PolicyRule, values: PolicyRule): (r: PolicyRule)
  {
    PolicyRule(if values.ptype != "" then values.ptype else row.ptype,
               if values.v0 != "" then values.v0 else row.v0,
               if values.v1 != "" then values.v1 else row.v1,
               if values.v2 != "" then values.v2 else row.v2,
               if values.v3 != "" then values.v3 else row.v3,
               if values.v4 != "" then values.v4 else row.v4,
               if values.v5 != "" then values.v5 else row.v5)
  }

  /** Column by column, an assignment takes the set value and keeps the rest. */
  lemma AssignColumns(row: PolicyRule, values: PolicyRule, c: Column)
    ensures Get(Assign(row, values), c) == if Get(values, c) != "" then Get(values, c) else Get(row, c)
  {
  }

  /** After an assignment the row agrees with every column the assignment sets. */
  lemma {:induction false} AssignEstablishesValues(row: PolicyRule, values: PolicyRule)
    ensures AgreesOnSetColumns(Assign(row, values), values)
  {
    var a := Assign(row, values);
    forall i: FieldIndex | Values(values)[i] != ""
      ensures Values(a)[i] == Values(values)[i]
    {
      AssignColumns(row, values, ValueColumn(i));
    }
  }

  lemma AssignIdempotent(row: PolicyRule, values: PolicyRule)
    ensures Assign(Assign(row, values), values) == Assign(row, values)
  {
  }

  /** A record that sets every column overwrites the row completely. */
  lemma AssignFullRecord(row: PolicyRule, values: PolicyRule)
    requires values.ptype != "" && forall i: FieldIndex :: Values(values)[i] != ""
    ensures Assign(row, values) == values
  {
    assert Values(values)[0] != "" && Values(values)[1] != "" && Values(values)[2] != "";
    assert Values(values)[3] != "" && Values(values)[4] != "" && Values(values)[5] != "";
  }

  /* ---------- RemoveFilteredPolicy ---------- */

  /**
   * The record `RemoveFilteredPolicy` builds: column vi takes
   * fieldValues[i - fieldIndex] exactly when i lies in the window
   * [fieldIndex, fieldIndex + |fieldValues|); every index used is in bounds.
   */
  function FilterRule(ptype: string, fieldIndex: int, fieldValues: seq<string>): (r: PolicyRule)
    ensures r.ptype == ptype
    ensures forall i: FieldIndex ::
              Values(r)[i] == if fieldIndex <= i < fieldIndex + |fieldValues| then fieldValues[i - fieldIndex] else ""
  {
    var n := |fieldValues|;
    PolicyRule(ptype,
               if fieldIndex <= 0 && 0 < fieldIndex + n then fieldValues[0 - fieldIndex] else "",
               if fieldIndex <= 1 && 1 < fieldIndex + n then fieldValues[1 - fieldIndex] else "",
               if fieldIndex <= 2 && 2 < fieldIndex + n then fieldValues[2 - fieldIndex] else "",
               if fieldIndex <= 3 && 3 < fieldIndex + n then fieldValues[3 - fieldIndex] else "",
               if fieldIndex <= 4 && 4 < fieldIndex + n then fieldValues[4 - fieldIndex] else "",
               if fieldIndex <= 5 && 5 < fieldIndex + n then fieldValues[5 - fieldIndex] else "")
  }

  /** `row` has ptype and, inside the window, every non-empty filter value. */
  predicate MatchesFilter(row: PolicyRule, ptype: string, fieldIndex: int, fieldValues: seq<string>)
  {
    row.ptype == ptype &&
    forall i: FieldIndex :: fieldIndex <= i < fieldIndex + |fieldValues| && fieldValues[i - fieldIndex] != ""
      ==> Values(row)[i] == fieldValues[i - fieldIndex]
  }

  /**
   * Filtered removal deletes exactly the rows whose ptype matches and that
   * carry every non-empty filter value in its column; columns outside the
   * window, and empty filter values, do not constrain the match.
   */
  lemma {:induction false} FilterConditionMeaning(row: PolicyRule, ptype: string, fieldIndex: int, fieldValues: seq<string>)
    ensures Satisfies(row, DeleteCondition(FilterRule(ptype, fieldIndex, fieldValues)))
        <==> MatchesFilter(row, ptype, fieldIndex, fieldValues)
  {
    var r := FilterRule(ptype, fieldIndex, fieldValues);
    DeleteConditionMeaning(row, r);
    if Satisfies(row, DeleteCondition(r)) {
      forall i: FieldIndex | fieldIndex <= i < fieldIndex + |fieldValues| && fieldValues[i - fieldIndex] != ""
        ensures Values(row)[i] == fieldValues[i - fieldIndex]
      {
        assert Values(r)[i] == fieldValues[i - fieldIndex];
      }
    }
    if MatchesFilter(row, ptype, fieldIndex, fieldValues) {
      forall i: FieldIndex | Values(r)[i] != ""
        ensures Values(row)[i] == Values(r)[i]
      {
      }
    }
  }

  /** Filtering on index 2 with one value "x" matches the rows whose ptype matches and whose v2 is "x". */
  lemma {:induction false} FilterOnSingleColumn(row: PolicyRule, ptype: string, x: string)
    requires x != ""
    ensures Satisfies(row, DeleteCondition(FilterRule(ptype, 2, [x]))) <==> row.ptype == ptype && row.v2 == x
  {
    FilterConditionMeaning(row, ptype, 2, [x]);
    if row.ptype == ptype && row.v2 == x {
      forall i: FieldIndex | 2 <= i < 3 && [x][i - 2] != ""
        ensures Values(row)[i] == [x][i - 2]
      {
      }
    }
    if MatchesFilter(row, ptype, 2, [x]) {
      var two: FieldIndex := 2;
      assert Values(row)[two] == [x][two - 2];
    }
  }

  /* ---------- RemovePolicies ---------- */

  /**
   * The conjunction `RemovePolicies` builds for one rule: ptype, then
   * vi = rule[i] for every position the rule supplies (up to v5), empty
   * values included.
   */
  function SuppliedClause(ptype: string, rule: seq<string>): (c: Conjunction)
    ensures |c| == 1 + Min(|rule|, FieldCount)
    ensures c[0] == Equals(PTypeColumn, ptype)
  {
    [Equals(PTypeColumn, ptype)]
    + seq(Min(|rule|, FieldCount), i requires 0 <= i < Min(|rule|, FieldCount) => Equals(ValueColumn(i), rule[i]))
  }

  /** `row` has ptype and equals the rule at every position the rule supplies. */
  predicate MatchesSupplied(row: PolicyRule, ptype: string, rule: seq<string>)
  {
    row.ptype == ptype && forall i: FieldIndex :: i < |rule| ==> Values(row)[i] == rule[i]
  }

  lemma {:induction false} SuppliedClauseMeaning(row: PolicyRule, ptype: string, rule: seq<string>)
    ensures Satisfies(row, SuppliedClause(ptype, rule)) <==> MatchesSupplied(row, ptype, rule)
  {
    var q := SuppliedClause(ptype, rule);
    if Satisfies(row, q) {
      assert Get(row, q[0].column) == q[0].value;
      forall i: FieldIndex | i < |rule|
        ensures Values(row)[i] == rule[i]
      {
        assert Get(row, q[i + 1].column) == q[i + 1].value;
      }
    }
    if MatchesSupplied(row, ptype, rule) {
      forall k | 0 <= k < |q|
        ensures Get(row, q[k].column) == q[k].value
      {
        if k > 0 {
          var i: FieldIndex := k - 1;
          assert q[k] == Equals(ValueColumn(i), rule[i]);
        }
      }
    }
  }

  /**
   * The query loop of `RemovePolicies` for one rule: starts from the ptype
   * constraint and, for i = 0..5, adds vi = rule[i] when the rule is longer
   * than i.
   */
  method BuildRuleClause(ptype: string, rule: seq<string>) returns (query: Conjunction)
    ensures query == SuppliedClause(ptype, rule)
    ensures |query| > 0
  {
    query := [Equals(PTypeColumn, ptype)];
    for i := 0 to FieldCount
      invariant query == [Equals(PTypeColumn, ptype)]
        + seq(Min(|rule|, i), j requires 0 <= j < Min(|rule|, i) => Equals(ValueColumn(j), rule[j]))
    {
      if |rule| > i {
        query := query + [Equals(ValueColumn(i), rule[i])];
      }
    }
  }

  /** One conjunction per rule, in order; the chain of `Or` clauses. */
  function SuppliedClauses(ptype: string, rules: seq<seq<string>>): (disj: seq<Conjunction>)
    ensures |disj| == |rules|
  {
    seq(|rules|, k requires 0 <= k < |rules| => SuppliedClause(ptype, rules[k]))
  }

  predicate MatchesAnyRule(row: PolicyRule, ptype: string, rules: seq<seq<string>>)
  {
    exists k :: 0 <= k < |rules| && MatchesSupplied(row, ptype, rules[k])
  }

  /** A row satisfies the OR-of-ANDs exactly when it matches at least one rule. */
  lemma {:induction false} SuppliedClausesMeaning(row: PolicyRule, ptype: string, rules: seq<seq<string>>)
    ensures SatisfiesAny(row, SuppliedClauses(ptype, rules)) <==> MatchesAnyRule(row, ptype, rules)
  {
    var disj := SuppliedClauses(ptype, rules);
    if SatisfiesAny(row, disj) {
      var k :| 0 <= k < |disj| && Satisfies(row, disj[k]);
      SuppliedClauseMeaning(row, ptype, rules[k]);
    }
    if MatchesAnyRule(row, ptype, rules) {
      var k :| 0 <= k < |rules| && MatchesSupplied(row, ptype, rules[k]);
      SuppliedClauseMeaning(row, ptype, rules[k]);
      assert Satisfies(row, disj[k]);
    }
  }

  /**
   * Batch removal with rules [[a, b], [c]] matches (ptype, v0 = a, v1 = b)
   * or (ptype, v0 = c): the second rule does not constrain v1.
   */
  lemma {:induction false} BatchRemovalScenario(row: PolicyRule, ptype: string, a: string, b: string, c: string)
    ensures SatisfiesAny(row, SuppliedClauses(ptype, [[a, b], [c]]))
        <==> row.ptype == ptype && ((row.v0 == a && row.v1 == b) || row.v0 == c)
  {
    var rules := [[a, b], [c]];
    SuppliedClausesMeaning(row, ptype, rules);
    var zero: FieldIndex, one: FieldIndex := 0, 1;
    if MatchesAnyRule(row, ptype, rules) {
      var k :| 0 <= k < |rules| && MatchesSupplied(row, ptype, rules[k]);
      assert Values(row)[zero] == rules[k][zero];
      if k == 0 {
        assert Values(row)[one] == rules[k][one];
      }
    }
    if row.ptype == ptype && row.v0 == a && row.v1 == b {
      assert MatchesSupplied(row, ptype, rules[0]);
    }
    if row.ptype == ptype && row.v0 == c {
      assert MatchesSupplied(row, ptype, rules[1]);
    }
  }

  /**
   * Batch removal treats an empty value as a constraint on its column,
   * single removal as don't-care: the two differ on the rule [a, ""].
   */
  lemma {:induction false} EmptyValueConstrainsOnlyInBatch(ptype: string, a: string, x: string)
    requires x != ""
    ensures Satisfies(PolicyRule(ptype, a, x, "", "", "", ""), DeleteCondition(BuildPolicyRule(ptype, [a, ""])))
    ensures !SatisfiesAny(PolicyRule(ptype, a, x, "", "", "", ""), SuppliedClauses(ptype, [[a, ""]]))
  {
    var row := PolicyRule(ptype, a, x, "", "", "", "");
    DeleteConditionMeaning(row, BuildPolicyRule(ptype, [a, ""]));
    SuppliedClausesMeaning(row, ptype, [[a, ""]]);
    var one: FieldIndex := 1;
    assert Values(row)[one] != [a, ""][one];
  }
}
