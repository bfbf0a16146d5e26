/**
 * The policy storage adapter: an object that owns the name of its policy
 * table and, through its database connection, the table itself. Every
 * operation is one or a few statements against that table; the answers of
 * the database (success or failure of each statement) are parameters.
 */
module PolicyAdapter {
  import opened Schema
  import opened Codec
  import opened Query
  import opened Storage

  /** The kinds of database argument the constructor distinguishes. */
  datatype Database = Dsn(dsn: string) | Connection | Unsupported

  /** The configured table name, or the default one when it is empty. */
  function TableName(configured: string): (name: string)
    ensures name != ""
    ensures configured != "" ==> name == configured
    ensures configured == "" ==> name == DefaultTableName
  {
    if configured == "" then DefaultTableName else configured
  }

  /* ---------- encoding a list of rules ---------- */

  /** The rows of a list of rules of one policy type, in input order. */
  function EncodeAll(ptype: string, rules: seq<seq<string>>): (rows: seq<PolicyRule>)
    ensures |rows| == |rules|
    ensures forall k :: 0 <= k < |rules| ==> rows[k] == BuildPolicyRule(ptype, rules[k])
  {
    if rules == [] then []
    else EncodeAll(ptype, rules[..|rules| - 1]) + [BuildPolicyRule(ptype, rules[|rules| - 1])]
  }

  /** The loop that encodes a list of rules before a batch insert. */
  method EncodeRules(ptype: string, rules: seq<seq<string>>) returns (policyRules: seq<PolicyRule>)
    ensures policyRules == EncodeAll(ptype, rules)
  {
    policyRules := [];
    for i := 0 to |rules|
      invariant policyRules == EncodeAll(ptype, rules[..i])
    {
      assert rules[..i + 1][..i] == rules[..i];
      policyRules := policyRules + [BuildPolicyRule(ptype, rules[i])];
    }
    assert rules[..|rules|] == rules;
  }

  /* ---------- saving a model section ---------- */

  /** One section of the in-memory model: each policy type with its rules. */
  type Section = map<string, seq<seq<string>>>

  /** The rows of a given policy type, in order. */
  function WithPType(rows: seq<PolicyRule>, ptype: string): seq<PolicyRule>
  {
    if rows == [] then []
    else
      var last := rows[|rows| - 1];
      WithPType(rows[..|rows| - 1], ptype) + (if last.ptype == ptype then [last] else [])
  }

  lemma {:induction false} WithPTypeAppend(a: seq<PolicyRule>, b: seq<PolicyRule>, ptype: string)
    ensures WithPType(a + b, ptype) == WithPType(a, ptype) + WithPType(b, ptype)
    decreases |b|
  {
    if b == [] {
      assert a + b == a;
    } else {
      var b' := b[..|b| - 1];
      assert a + b == (a + b') + [b[|b| - 1]];
      assert (a + b)[..|a + b| - 1] == a + b';
      WithPTypeAppend(a, b', ptype);
    }
  }

  lemma {:induction false} WithPTypeEncoded(q: string, rules: seq<seq<string>>, ptype: string)
    ensures WithPType(EncodeAll(q, rules), ptype) == if ptype == q then EncodeAll(q, rules) else []
  {
    if rules != [] {
      var rows := EncodeAll(q, rules);
      assert rows[..|rows| - 1] == EncodeAll(q, rules[..|rules| - 1]);
      WithPTypeEncoded(q, rules[..|rules| - 1], ptype);
    }
  }

  /** A row occurs in a table as often as it occurs among the rows of its own policy type. */
  lemma {:induction false} CountWithinPType(rows: seq<PolicyRule>, x: PolicyRule)
    ensures multiset(rows)[x] == multiset(WithPType(rows, x.ptype))[x]
  {
    if rows != [] {
      var last := rows[|rows| - 1];
      assert rows == rows[..|rows| - 1] + [last];
      CountWithinPType(rows[..|rows| - 1], x);
    }
  }

  /**
   * `rows` holds exactly the encoded rules of `section`: every row belongs
   * to a policy type of the section, and the rows of each policy type are
   * the encodings of its rules, in the rules' order.
   */
  predicate HoldsSection(rows: seq<PolicyRule>, section: Section)
  {
    (forall k :: 0 <= k < |rows| ==> rows[k].ptype in section) &&
    (forall ptype :: ptype in section ==> WithPType(rows, ptype) == EncodeAll(ptype, section[ptype]))
  }

  /** Whatever order the policy types are visited in, the saved rows are the same up to permutation. */
  lemma {:induction false} SectionDeterminesRows(a: seq<PolicyRule>, b: seq<PolicyRule>, section: Section)
    requires HoldsSection(a, section) && HoldsSection(b, section)
    ensures multiset(a) == multiset(b)
  {
    forall x | true
      ensures multiset(a)[x] == multiset(b)[x]
    {
      CountWithinPType(a, x);
      CountWithinPType(b, x);
      if x.ptype !in section {
        assert forall k :: 0 <= k < |a| ==> a[k] != x;
        assert forall k :: 0 <= k < |b| ==> b[k] != x;
      }
    }
  }

  predicate SectionEmpty(section: Section)
  {
    forall ptype :: ptype in section ==> section[ptype] == []
  }

  /** Rows holding a section are empty exactly when the section has no rules. */
  lemma {:induction false} HoldsSectionEmpty(rows: seq<PolicyRule>, section: Section)
    requires HoldsSection(rows, section)
    ensures rows == [] <==> SectionEmpty(section)
  {
    if rows == [] {
      forall ptype | ptype in section
        ensures section[ptype] == []
      {
        assert |EncodeAll(ptype, section[ptype])| == 0;
      }
    } else {
      var x := rows[0];
      assert x.ptype in section;
      CountWithinPType(rows, x);
      assert multiset(rows)[x] > 0;
      assert WithPType(rows, x.ptype) != [];
    }
  }

  /**
   * The rows appended so far while saving `section`: the encodings of the
   * rules of every policy type already visited (those not in `remaining`),
   * and nothing else.
   */
  predicate PartlyHolds(rows: seq<PolicyRule>, section: Section, remaining: set<string>)
  {
    (forall k :: 0 <= k < |rows| ==> rows[k].ptype in section && rows[k].ptype !in remaining) &&
    (forall ptype :: ptype in section ==>
       WithPType(rows, ptype) == if ptype in remaining then [] else EncodeAll(ptype, section[ptype]))
  }

  /** Visiting one more policy type appends its encoded rules and removes it from those remaining. */
  lemma {:induction false} PartlyHoldsStep(rows: seq<PolicyRule>, section: Section, remaining: set<string>, ptype: string)
    requires ptype in remaining && remaining <= section.Keys
    requires PartlyHolds(rows, section, remaining)
    ensures PartlyHolds(rows + EncodeAll(ptype, section[ptype]), section, remaining - {ptype})
  {
    var encoded := EncodeAll(ptype, section[ptype]);
    var next := rows + encoded;
    forall k | 0 <= k < |next|
      ensures next[k].ptype in section && next[k].ptype !in remaining - {ptype}
    {
      if k >= |rows| {
        assert next[k] == encoded[k - |rows|];
      }
    }
    forall p | p in section
      ensures WithPType(next, p) == if p in remaining - {ptype} then [] else EncodeAll(p, section[p])
    {
      WithPTypeAppend(rows, encoded, p);
      WithPTypeEncoded(ptype, section[ptype], p);
    }
  }

  /**
   * The loops of `SavePolicy` over one section: for each policy type, in
   * an order the model's map leaves unspecified, append the encoding of
   * each of its rules to `policyRules`.
   */
  method AppendSection(policyRules: seq<PolicyRule>, section: Section) returns (result: seq<PolicyRule>)
    ensures |result| >= |policyRules| && result[..|policyRules|] == policyRules
    ensures HoldsSection(result[|policyRules|..], section)
  {
    var appended: seq<PolicyRule> := [];
    var remaining := section.Keys;
    while remaining != {}
      invariant remaining <= section.Keys
      invariant PartlyHolds(appended, section, remaining)
      decreases remaining
    {
      var ptype :| ptype in remaining;
      var encoded := EncodeRules(ptype, section[ptype]);
      PartlyHoldsStep(appended, section, remaining, ptype);
      appended := appended + encoded;
      remaining := remaining - {ptype};
    }
    result := policyRules + appended;
    assert result[..|policyRules|] == policyRules;
    assert result[|policyRules|..] == appended;
  }

  /** The table holds the rows of the "p" section followed by the rows of the "g" section. */
  ghost predicate SnapshotOf(rows: seq<PolicyRule>, pSection: Section, gSection: Section)
  {
    exists n :: 0 <= n <= |rows| && HoldsSection(rows[..n], pSection) && HoldsSection(rows[n..], gSection)
  }

  lemma SplitMultiset<T>(s: seq<T>, n: nat)
    requires n <= |s|
    ensures multiset(s) == multiset(s[..n]) + multiset(s[n..])
  {
    assert s == s[..n] + s[n..];
  }

  /** Two tables that both hold the same two sections hold the same rows, whatever order each was written in. */
  lemma {:induction false} SnapshotDeterminesRows(a: seq<PolicyRule>, b: seq<PolicyRule>, pSection: Section, gSection: Section)
    requires SnapshotOf(a, pSection, gSection) && SnapshotOf(b, pSection, gSection)
    ensures multiset(a) == multiset(b)
  {
    var n :| 0 <= n <= |a| && HoldsSection(a[..n], pSection) && HoldsSection(a[n..], gSection);
    var m :| 0 <= m <= |b| && HoldsSection(b[..m], pSection) && HoldsSection(b[m..], gSection);
    assert multiset(a[..n]) == multiset(b[..m]) by {
      SectionDeterminesRows(a[..n], b[..m], pSection);
    }
    assert multiset(a[n..]) == multiset(b[m..]) by {
      SectionDeterminesRows(a[n..], b[m..], gSection);
    }
    SplitMultiset(a, n);
    SplitMultiset(b, m);
  }

  /**
   * The rows `SavePolicy` inserts: the encoded rules of every policy type
   * of the "p" section, then those of the "g" section.
   */
  method CollectRules(pSection: Section, gSection: Section) returns (policyRules: seq<PolicyRule>)
    ensures SnapshotOf(policyRules, pSection, gSection)
    ensures policyRules == [] <==> SectionEmpty(pSection) && SectionEmpty(gSection)
  {
    policyRules := AppendSection([], pSection);
    var np := |policyRules|;
    ghost var pRows := policyRules;
    assert pRows[0..] == pRows;
    policyRules := AppendSection(policyRules, gSection);
    assert policyRules[..np] == pRows;
    HoldsSectionEmpty(pRows, pSection);
    HoldsSectionEmpty(policyRules[np..], gSection);
    assert policyRules == pRows + policyRules[np..];
  }

  /* ---------- loading ---------- */

  /** The rule lines, one per row in scan order, that the model's line loader accepted. */
  function AcceptedLines(rows: seq<PolicyRule>, accepts: string -> bool): seq<string>
  {
    if rows == [] then []
    else
      var line := RuleText(rows[|rows| - 1]);
      AcceptedLines(rows[..|rows| - 1], accepts) + (if accepts(line) then [line] else [])
  }

  /** Scanning one more row adds its line when the loader accepts it. */
  lemma AcceptedLinesSnoc(rows: seq<PolicyRule>, row: PolicyRule, accepts: string -> bool)
    ensures AcceptedLines(rows + [row], accepts)
         == AcceptedLines(rows, accepts) + (if accepts(RuleText(row)) then [RuleText(row)] else [])
  {
    assert (rows + [row])[..|rows|] == rows;
  }

  /** The scan loop of `LoadPolicy`: decode each row and keep the lines the loader accepts. */
  method LoadLines(rows: seq<PolicyRule>, accepts: string -> bool) returns (loaded: seq<string>)
    ensures loaded == AcceptedLines(rows, accepts)
  {
    loaded := [];
    for i := 0 to |rows|
      invariant loaded == AcceptedLines(rows[..i], accepts)
    {
      var line := LoadPolicyRule(rows[i]);
      AcceptedLinesSnoc(rows[..i], rows[i], accepts);
      assert rows[..i] + [rows[i]] == rows[..i + 1];
      if accepts(line) {
        loaded := loaded + [line];
      }
    }
    assert rows[..|rows|] == rows;
  }

  /** The decoding of every row, in scan order. */
  function DecodeRows(rows: seq<PolicyRule>): (lines: seq<string>)
    ensures |lines| == |rows|
    ensures forall k :: 0 <= k < |rows| ==> lines[k] == RuleText(rows[k])
  {
    if rows == [] then []
    else DecodeRows(rows[..|rows| - 1]) + [RuleText(rows[|rows| - 1])]
  }

  /** A loader that accepts every line receives the decoding of every row, in scan order. */
  lemma {:induction false} AllLinesLoaded(rows: seq<PolicyRule>, accepts: string -> bool)
    requires forall line :: accepts(line)
    ensures AcceptedLines(rows, accepts) == DecodeRows(rows)
  {
    if rows != [] {
      var init := rows[..|rows| - 1];
      AllLinesLoaded(init, accepts);
      assert accepts(RuleText(rows[|rows| - 1]));
    }
  }

  /** Two stored rows load as the two rule lines "p, role_1, node_1" and "g, user_1, role_1". */
  lemma {:induction false} LoadScenario(accepts: string -> bool)
    requires forall line :: accepts(line)
    ensures AcceptedLines([PolicyRule("p", "role_1", "node_1", "", "", "", ""),
                           PolicyRule("g", "user_1", "role_1", "", "", "", "")], accepts)
         == ["p, role_1, node_1", "g, user_1, role_1"]
  {
    var rows := [PolicyRule("p", "role_1", "node_1", "", "", "", ""),
                 PolicyRule("g", "user_1", "role_1", "", "", "", "")];
    AllLinesLoaded(rows, accepts);
    DecodeScenario();
    var lines := DecodeRows(rows);
    assert lines == [lines[0], lines[1]];
  }

  /* ---------- single updates ---------- */

  /**
   * The outcome of `Where(where).Updates(values)`: with nothing to set no
   * statement is issued; an empty condition is refused by the ORM's guard;
   * otherwise the statement runs against the table.
   */
  function UpdateStatus(t: Table, where: Conjunction, values: PolicyRule, backendOk: bool): (s: Status)
    ensures s.Ok? <==> values == Unset("") || (where != [] && t.Present? && backendOk)
  {
    if values == Unset("") then Ok
    else if where == [] then Failed(MissingWhereClause)
    else StatementStatus(t, backendOk)
  }

  /** The table after a successful `Where(where).Updates(values)`. */
  function UpdateResult(t: Table, where: Conjunction, values: PolicyRule): (r: Table)
    ensures t.Absent? ==> r == t
    ensures t.Present? ==> r.Present? && |r.rows| == |t.rows|
  {
    if t.Absent? then t else Present(Update(t.rows, where, values))
  }

  /** One `Where(where).Updates(values)` statement. */
  datatype Assignment = Assignment(where: Conjunction, values: PolicyRule)

  /** The statement that gives the rows matching the encoded `matchRule` the columns of the encoded `writeRule`. */
  function PairAssignment(ptype: string, matchRule: seq<string>, writeRule: seq<string>): Assignment
  {
    Assignment(StructCondition(BuildPolicyRule(ptype, matchRule)), BuildPolicyRule(ptype, writeRule))
  }

  /** A rule encodes to the all-blank record exactly when its policy type and every stored entry are empty. */
  lemma {:induction false} EncodesToBlank(ptype: string, rule: seq<string>)
    ensures BuildPolicyRule(ptype, rule) == Unset("")
        <==> ptype == "" && forall i :: 0 <= i < |rule| && i < FieldCount ==> rule[i] == ""
  {
    var r := BuildPolicyRule(ptype, rule);
    if ptype == "" && forall i :: 0 <= i < |rule| && i < FieldCount ==> rule[i] == "" {
      assert Values(r)[0] == "" && Values(r)[1] == "" && Values(r)[2] == "";
      assert Values(r)[3] == "" && Values(r)[4] == "" && Values(r)[5] == "";
    }
    if r == Unset("") {
      forall i | 0 <= i < |rule| && i < FieldCount
        ensures rule[i] == ""
      {
        assert Values(r)[i] == "";
      }
    }
  }

  /**
   * The condition of an update is empty exactly when the policy type is
   * empty and so is every entry of the matched rule that reaches a column.
   */
  lemma {:induction false} UpdateConditionEmpty(ptype: string, matchRule: seq<string>, writeRule: seq<string>)
    ensures PairAssignment(ptype, matchRule, writeRule).where == []
        <==> ptype == "" && forall i :: 0 <= i < |matchRule| && i < FieldCount ==> matchRule[i] == ""
  {
    StructConditionEmpty(BuildPolicyRule(ptype, matchRule));
    EncodesToBlank(ptype, matchRule);
  }

  /**
   * An update is refused by the ORM's missing-where guard exactly when its
   * condition is empty and it has something to set: the policy type and
   * every stored entry of the matched rule are empty, and some stored entry
   * of the written rule is not. With nothing to set it is never refused.
   */
  lemma {:induction false} UpdateRefused(t: Table, ptype: string, matchRule: seq<string>, writeRule: seq<string>,
                                         backendOk: bool)
    ensures var a := PairAssignment(ptype, matchRule, writeRule);
            (UpdateStatus(t, a.where, a.values, backendOk) == Failed(MissingWhereClause)
             <==> && ptype == ""
                  && (forall i :: 0 <= i < |matchRule| && i < FieldCount ==> matchRule[i] == "")
                  && (exists i :: 0 <= i < |writeRule| && i < FieldCount && writeRule[i] != ""))
  {
    UpdateConditionEmpty(ptype, matchRule, writeRule);
    EncodesToBlank(ptype, writeRule);
  }

  /** An update that sets nothing changes nothing, which is why no statement needs to be issued for it. */
  lemma {:induction false} UpdateNothingToSet(t: Table, where: Conjunction)
    ensures UpdateResult(t, where, Unset("")) == t
  {
    if t.Present? {
      var updated := Update(t.rows, where, Unset(""));
      forall k | 0 <= k < |t.rows|
        ensures updated[k] == t.rows[k]
      {
        assert Assign(t.rows[k], Unset("")) == t.rows[k];
      }
    }
  }

  /**
   * Single update: a row that agrees with every non-empty column of the
   * encoded old rule takes every non-empty column of the encoded new rule
   * and keeps its other columns; every other row is unchanged.
   */
  lemma {:induction false} UpdatePolicyEffect(rows: seq<PolicyRule>, ptype: string, oldRule: seq<string>,
                                              newRule: seq<string>, k: nat, c: Column)
    requires k < |rows|
    ensures var a := PairAssignment(ptype, oldRule, newRule);
            var after := UpdateResult(Present(rows), a.where, a.values).rows;
            Get(after[k], c) ==
              if AgreesOnSetColumns(rows[k], BuildPolicyRule(ptype, oldRule)) && Get(a.values, c) != ""
              then Get(a.values, c) else Get(rows[k], c)
  {
    StructConditionMeaning(rows[k], BuildPolicyRule(ptype, oldRule));
    AssignColumns(rows[k], BuildPolicyRule(ptype, newRule), c);
  }

  /**
   * Updating (alice, data1, read) to the shorter (alice, data1) keeps
   * "read" in v2: the new rule leaves v2 empty, and an empty column is not
   * written.
   */
  lemma {:induction false} ShorterNewRuleKeepsOldColumns()
    ensures var row := BuildPolicyRule("p", ["alice", "data1", "read"]);
            var a := PairAssignment("p", ["alice", "data1", "read"], ["alice", "data1"]);
            UpdateResult(Present([row]), a.where, a.values) == Present([row])
  {
    var row := BuildPolicyRule("p", ["alice", "data1", "read"]);
    var a := PairAssignment("p", ["alice", "data1", "read"], ["alice", "data1"]);
    assert Satisfies(row, a.where) by {
      StructConditionMeaning(row, row);
    }
    assert Assign(row, a.values) == row;
    assert Update([row], a.where, a.values) == [row];
  }

  /* ---------- paired updates in one transaction ---------- */

  /** The statements of a batch: one per index below the length of the shorter list. */
  function PairAssignments(ptype: string, matchRules: seq<seq<string>>, writeRules: seq<seq<string>>): (stmts: seq<Assignment>)
    ensures |stmts| == Min(|matchRules|, |writeRules|)
    ensures forall i :: 0 <= i < |stmts| ==> stmts[i] == PairAssignment(ptype, matchRules[i], writeRules[i])
  {
    seq(Min(|matchRules|, |writeRules|),
        i requires 0 <= i < Min(|matchRules|, |writeRules|) => PairAssignment(ptype, matchRules[i], writeRules[i]))
  }

  /** The rules past the length of the shorter list play no part. */
  lemma PairAssignmentsIgnoreExtra(ptype: string, matchRules: seq<seq<string>>, writeRules: seq<seq<string>>)
    ensures var n := Min(|matchRules|, |writeRules|);
            PairAssignments(ptype, matchRules, writeRules) == PairAssignments(ptype, matchRules[..n], writeRules[..n])
  {
  }

  /** The table after a sequence of statements that all succeed. */
  function RunAssignments(t: Table, stmts: seq<Assignment>): Table
  {
    if stmts == [] then t
    else
      var last := stmts[|stmts| - 1];
      UpdateResult(RunAssignments(t, stmts[..|stmts| - 1]), last.where, last.values)
  }

  /** The outcome of a sequence of statements: the first failure, or success; statement i succeeds at the backend when `stepOk(i)`. */
  function RunStatus(t: Table, stmts: seq<Assignment>, stepOk: nat -> bool): Status
  {
    if stmts == [] then Ok
    else
      var init := stmts[..|stmts| - 1];
      var last := stmts[|stmts| - 1];
      var s := RunStatus(t, init, stepOk);
      if !s.Ok? then s else UpdateStatus(RunAssignments(t, init), last.where, last.values, stepOk(|stmts| - 1))
  }

  /** The outcome of the transaction: the first failing statement, else the commit. */
  function TransactionStatus(t: Table, stmts: seq<Assignment>, stepOk: nat -> bool, commitOk: bool): Status
  {
    var s := RunStatus(t, stmts, stepOk);
    if !s.Ok? then s else if commitOk then Ok else Failed(BackendError)
  }

  /** Once a statement fails, the outcome of the whole sequence is that failure. */
  lemma {:induction false} RunStatusSticky(t: Table, stmts: seq<Assignment>, stepOk: nat -> bool, i: nat)
    requires i <= |stmts|
    requires !RunStatus(t, stmts[..i], stepOk).Ok?
    ensures RunStatus(t, stmts, stepOk) == RunStatus(t, stmts[..i], stepOk)
  {
    if i < |stmts| {
      var init := stmts[..|stmts| - 1];
      assert init[..i] == stmts[..i];
      RunStatusSticky(t, init, stepOk, i);
    } else {
      assert stmts[..i] == stmts;
    }
  }

  /** Statements that all succeed add no row, remove no row and never create the table. */
  lemma {:induction false} RunKeepsRowCount(t: Table, stmts: seq<Assignment>)
    ensures RunAssignments(t, stmts).Present? == t.Present?
    ensures t.Present? ==> |RunAssignments(t, stmts).rows| == |t.rows|
  {
    if stmts != [] {
      RunKeepsRowCount(t, stmts[..|stmts| - 1]);
    }
  }

  /** A sequence of one statement is that statement. */
  lemma {:induction false} RunSingle(t: Table, a: Assignment, stepOk: nat -> bool)
    ensures RunAssignments(t, [a]) == UpdateResult(t, a.where, a.values)
    ensures RunStatus(t, [a], stepOk) == UpdateStatus(t, a.where, a.values, stepOk(0))
  {
    assert [a][..0] == [];
  }

  /**
   * The statements of the batch update inside its transaction, built pair
   * by pair and applied to a working copy of the table; stops at the first
   * failing statement.
   */
  method ApplyPairs(t: Table, ptype: string, matchRules: seq<seq<string>>, writeRules: seq<seq<string>>,
                    stepOk: nat -> bool) returns (status: Status, working: Table)
    ensures status == RunStatus(t, PairAssignments(ptype, matchRules, writeRules), stepOk)
    ensures status.Ok? ==> working == RunAssignments(t, PairAssignments(ptype, matchRules, writeRules))
  {
    ghost var stmts := PairAssignments(ptype, matchRules, writeRules);
    var n := Min(|matchRules|, |writeRules|);
    working := t;
    status := Ok;
    var i := 0;
    while i < n && status.Ok?
      invariant 0 <= i <= n
      invariant status == RunStatus(t, stmts[..i], stepOk)
      invariant status.Ok? ==> working == RunAssignments(t, stmts[..i])
    {
      var stmt := PairAssignment(ptype, matchRules[i], writeRules[i]);
      assert stmts[..i + 1][..i] == stmts[..i] && stmts[..i + 1][i] == stmt;
      status := UpdateStatus(working, stmt.where, stmt.values, stepOk(i));
      if status.Ok? {
        working := UpdateResult(working, stmt.where, stmt.values);
      }
      i := i + 1;
    }
    if !status.Ok? {
      RunStatusSticky(t, stmts, stepOk, i);
    }
    assert stmts[..n] == stmts;
  }

  /* ---------- the adapter ---------- */

  class Adapter {
    /** The policy table's name, fixed at construction. */
    const name: string
    /** The policy table as the database holds it. */
    var table: Table

    constructor (name: string, table: Table)
      ensures this.name == name && this.table == table
    {
      this.name := name;
      this.table := table;
    }

    /** The rows of the table; an absent table has none. */
    function Rows(): (rows: seq<PolicyRule>)
      reads this
      ensures table.Present? ==> rows == table.rows
      ensures table.Absent? ==> rows == []
    {
      if table.Present? then table.rows else []
    }

    /**
     * `newAdapter`: accepts a connection string (connecting may fail) or an
     * open connection, refuses anything else, substitutes the default table
     * name for an empty one, and ensures the table exists before returning.
     * `existing` is the state the database's table is in beforehand.
     */
    static method NewAdapter(database: Database, tableName: string, existing: Table,
                             connectOk: bool, createOk: bool) returns (adapter: Adapter?, status: Status)
      ensures database.Unsupported? ==> status == Failed(InvalidDatabase)
      ensures database.Dsn? && !connectOk ==> status == Failed(BackendError)
      ensures status.Ok? <==> !database.Unsupported? && (database.Dsn? ==> connectOk) && createOk
      ensures status.Ok? <==> adapter != null
      ensures adapter != null ==>
                fresh(adapter) && adapter.name == TableName(tableName) && adapter.table == CreateIfNotExists(existing)
    {
      if database.Unsupported? {
        return null, Failed(InvalidDatabase);
      }
      if database.Dsn? && !connectOk {
        return null, Failed(BackendError);
      }
      var a := new Adapter(TableName(tableName), existing);
      status := a.CreatePolicyTable(createOk);
      adapter := if status.Ok? then a else null;
    }

    /** `createPolicyTable`: CREATE TABLE IF NOT EXISTS. */
    method CreatePolicyTable(backendOk: bool) returns (status: Status)
      modifies this
      ensures status == if backendOk then Ok else Failed(BackendError)
      ensures table == if backendOk then CreateIfNotExists(old(table)) else old(table)
    {
      if !backendOk {
        return Failed(BackendError);
      }
      table := CreateIfNotExists(table);
      status := Ok;
    }

    /** `dropPolicyTable`: DROP TABLE IF EXISTS. */
    method DropPolicyTable(backendOk: bool) returns (status: Status)
      modifies this
      ensures status == if backendOk then Ok else Failed(BackendError)
      ensures table == if backendOk then DropIfExists(old(table)) else old(table)
    {
      if !backendOk {
        return Failed(BackendError);
      }
      table := DropIfExists(table);
      status := Ok;
    }

    /**
     * `LoadPolicy`: scan every row, decode it and hand the line to the
     * model's line loader, ignoring the loader's verdict on each line;
     * only a failed scan is an error.
     */
    method LoadPolicy(scanOk: bool, accepts: string -> bool) returns (status: Status, loaded: seq<string>)
      ensures status == StatementStatus(table, scanOk)
      ensures loaded == if status.Ok? then AcceptedLines(Rows(), accepts) else []
    {
      status := StatementStatus(table, scanOk);
      loaded := [];
      if !status.Ok? {
        return;
      }
      loaded := LoadLines(table.rows, accepts);
    }

    /** `Create` / `CreateInBatches` with one batch: insert the rows at the end, or fail and insert none. */
    method Insert(policyRules: seq<PolicyRule>, backendOk: bool) returns (status: Status)
      modifies this
      ensures status == StatementStatus(old(table), backendOk)
      ensures table == if status.Ok? then Present(old(Rows()) + policyRules) else old(table)
    {
      status := StatementStatus(table, backendOk);
      if status.Ok? {
        table := Present(table.rows + policyRules);
      }
    }

    /**
     * `SavePolicy`: drop the table, recreate it, then insert the encoded
     * rules of every "p" section followed by those of every "g" section in
     * one batch; no insert when there is nothing to insert. The phases are
     * not one transaction: a failure leaves the table as the failing
     * phase found it.
     */
    method SavePolicy(pSection: Section, gSection: Section, dropOk: bool, createOk: bool, insertOk: bool)
      returns (status: Status)
      modifies this
      ensures !dropOk ==> status == Failed(BackendError) && table == old(table)
      ensures dropOk && !createOk ==> status == Failed(BackendError) && table == Absent
      ensures status.Ok? <==> dropOk && createOk && (insertOk || (SectionEmpty(pSection) && SectionEmpty(gSection)))
      ensures dropOk && createOk && !status.Ok? ==> table == Present([])
      ensures status.Ok? ==> table.Present? && SnapshotOf(table.rows, pSection, gSection)
      ensures status.Ok? && pSection == map[] && gSection == map[] ==> table == Present([])
    {
      status := DropPolicyTable(dropOk);
      if !status.Ok? {
        return;
      }
      status := CreatePolicyTable(createOk);
      if !status.Ok? {
        return;
      }
      var policyRules := CollectRules(pSection, gSection);
      if |policyRules| > 0 {
        status := Insert(policyRules, insertOk);
        assert [] + policyRules == policyRules;
      }
    }

    /** `AddPolicy`: insert the encoded rule; calling it twice inserts two rows. */
    method AddPolicy(sec: string, ptype: string, rule: seq<string>, backendOk: bool) returns (status: Status)
      modifies this
      ensures status == StatementStatus(old(table), backendOk)
      ensures table == if status.Ok? then Present(old(Rows()) + [BuildPolicyRule(ptype, rule)]) else old(table)
    {
      status := Insert([BuildPolicyRule(ptype, rule)], backendOk);
    }

    /** `AddPolicies`: nothing for an empty list, else one batch of the encoded rules in input order. */
    method AddPolicies(sec: string, ptype: string, rules: seq<seq<string>>, backendOk: bool) returns (status: Status)
      modifies this
      ensures rules == [] ==> status == Ok && table == old(table)
      ensures rules != [] ==> status == StatementStatus(old(table), backendOk)
      ensures rules != [] ==> table == if status.Ok? then Present(old(Rows()) + EncodeAll(ptype, rules)) else old(table)
    {
      if |rules| == 0 {
        return Ok;
      }
      var policyRules := EncodeRules(ptype, rules);
      status := Insert(policyRules, backendOk);
    }

    /** DELETE with a condition; the ORM refuses a delete without one. */
    method ExecDelete(where: seq<Conjunction>, backendOk: bool) returns (status: Status)
      modifies this
      ensures where == [] ==> status == Failed(MissingWhereClause)
      ensures where != [] ==> status == StatementStatus(old(table), backendOk)
      ensures table == if status.Ok? then Present(Delete(old(Rows()), where)) else old(table)
    {
      if where == [] {
        return Failed(MissingWhereClause);
      }
      status := StatementStatus(table, backendOk);
      if status.Ok? {
        table := Present(Delete(table.rows, where));
      }
    }

    /** `deletePolicyRule`: delete the rows matching ptype and every non-empty column of `rule`. */
    method DeletePolicyRule(rule: PolicyRule, backendOk: bool) returns (status: Status)
      modifies this
      ensures status == StatementStatus(old(table), backendOk)
      ensures table == if status.Ok? then Present(Delete(old(Rows()), [DeleteCondition(rule)])) else old(table)
    {
      status := ExecDelete([DeleteCondition(rule)], backendOk);
    }

    /** `RemovePolicy`: delete by the encoded rule, its empty columns being don't-care. */
    method RemovePolicy(sec: string, ptype: string, rule: seq<string>, backendOk: bool) returns (status: Status)
      modifies this
      ensures status == StatementStatus(old(table), backendOk)
      ensures table == if status.Ok?
                       then Present(Delete(old(Rows()), [DeleteCondition(BuildPolicyRule(ptype, rule))]))
                       else old(table)
    {
      status := DeletePolicyRule(BuildPolicyRule(ptype, rule), backendOk);
    }

    /** `RemoveFilteredPolicy`: delete by the values placed in the window starting at `fieldIndex`. */
    method RemoveFilteredPolicy(sec: string, ptype: string, fieldIndex: int, fieldValues: seq<string>, backendOk: bool)
      returns (status: Status)
      modifies this
      ensures status == StatementStatus(old(table), backendOk)
      ensures table == if status.Ok?
                       then Present(Delete(old(Rows()), [DeleteCondition(FilterRule(ptype, fieldIndex, fieldValues))]))
                       else old(table)
    {
      status := DeletePolicyRule(FilterRule(ptype, fieldIndex, fieldValues), backendOk);
    }

    /**
     * `RemovePolicies`: chain one `Or` clause per rule, each constraining
     * ptype and every position the rule supplies, and delete what matches.
     */
    method RemovePolicies(sec: string, ptype: string, rules: seq<seq<string>>, backendOk: bool) returns (status: Status)
      modifies this
      ensures rules == [] ==> status == Failed(MissingWhereClause) && table == old(table)
      ensures rules != [] ==> status == StatementStatus(old(table), backendOk)
      ensures rules != [] ==> table == if status.Ok?
                                       then Present(Delete(old(Rows()), SuppliedClauses(ptype, rules)))
                                       else old(table)
    {
      var where: seq<Conjunction> := [];
      for i := 0 to |rules|
        invariant table == old(table)
        invariant where == SuppliedClauses(ptype, rules[..i])
      {
        var query := BuildRuleClause(ptype, rules[i]);
        if |query| > 0 {
          where := where + [query];
        }
      }
      assert rules[..|rules|] == rules;
      status := ExecDelete(where, backendOk);
    }

    /** `Where(where).Updates(values)` as one statement. */
    method ExecUpdate(where: Conjunction, values: PolicyRule, backendOk: bool) returns (status: Status)
      modifies this
      ensures status == UpdateStatus(old(table), where, values, backendOk)
      ensures table == if status.Ok? then UpdateResult(old(table), where, values) else old(table)
    {
      status := UpdateStatus(table, where, values, backendOk);
      if status.Ok? {
        table := UpdateResult(table, where, values);
      }
    }

    /**
     * `UpdatePolicy`: the rows agreeing with every non-empty column of the
     * encoded old rule take the non-empty columns of the encoded new rule.
     */
    method UpdatePolicy(sec: string, ptype: string, oldRule: seq<string>, newRule: seq<string>, backendOk: bool)
      returns (status: Status)
      modifies this
      ensures var a := PairAssignment(ptype, oldRule, newRule);
              status == UpdateStatus(old(table), a.where, a.values, backendOk)
              && table == if status.Ok? then UpdateResult(old(table), a.where, a.values) else old(table)
    {
      var a := PairAssignment(ptype, oldRule, newRule);
      status := ExecUpdate(a.where, a.values, backendOk);
    }

    /**
     * The transaction of the batch update: for each of the first
     * min(|matchRules|, |writeRules|) pairs, update the rows matching the
     * encoded match rule with the encoded write rule, on a working copy;
     * the first failure rolls everything back, and the copy becomes the
     * table only if the commit succeeds.
     */
    method RunPairedUpdates(ptype: string, matchRules: seq<seq<string>>, writeRules: seq<seq<string>>,
                            stepOk: nat -> bool, commitOk: bool) returns (status: Status)
      modifies this
      ensures var stmts := PairAssignments(ptype, matchRules, writeRules);
              status == TransactionStatus(old(table), stmts, stepOk, commitOk)
              && table == if status.Ok? then RunAssignments(old(table), stmts) else old(table)
    {
      var working;
      status, working := ApplyPairs(table, ptype, matchRules, writeRules, stepOk);
      if !status.Ok? {
        return;
      }
      if !commitOk {
        return Failed(BackendError);
      }
      table := working;
    }

    /**
     * `UpdatePolicies` as written: nothing when either list is empty;
     * otherwise the pairs run in one transaction, each matching rows on
     * the NEW rule and writing the OLD one.
     */
    method UpdatePolicies(sec: string, ptype: string, oldRules: seq<seq<string>>, newRules: seq<seq<string>>,
                          stepOk: nat -> bool, commitOk: bool) returns (status: Status)
      modifies this
      ensures |oldRules| == 0 || |newRules| == 0 ==> status == Ok && table == old(table)
      ensures |oldRules| > 0 && |newRules| > 0 ==>
                var stmts := PairAssignments(ptype, newRules, oldRules);
                status == TransactionStatus(old(table), stmts, stepOk, commitOk)
                && table == if status.Ok? then RunAssignments(old(table), stmts) else old(table)
    {
      if |oldRules| == 0 || |newRules| == 0 {
        return Ok;
      }
      status := RunPairedUpdates(ptype, newRules, oldRules, stepOk, commitOk);
    }

    /**
     * `UpdatePolicies` as its interface intends: pair i issues the very
     * statement `UpdatePolicy` issues for (oldRules[i], newRules[i]).
     */
    method UpdatePoliciesIntended(sec: string, ptype: string, oldRules: seq<seq<string>>, newRules: seq<seq<string>>,
                                  stepOk: nat -> bool, commitOk: bool) returns (status: Status)
      modifies this
      ensures |oldRules| == 0 || |newRules| == 0 ==> status == Ok && table == old(table)
      ensures |oldRules| > 0 && |newRules| > 0 ==>
                var stmts := PairAssignments(ptype, oldRules, newRules);
                status == TransactionStatus(old(table), stmts, stepOk, commitOk)
                && table == if status.Ok? then RunAssignments(old(table), stmts) else old(table)
    {
      if |oldRules| == 0 || |newRules| == 0 {
        return Ok;
      }
      status := RunPairedUpdates(ptype, oldRules, newRules, stepOk, commitOk);
    }
  }

  /* ---------- properties relating several operations ---------- */

  /**
   * Adding a row (as `AddPolicy` appends the encoded rule) and then
   * removing it (as `RemovePolicy` deletes by the same encoded rule)
   * restores the table, provided no row already in the table matches the
   * rule's delete condition.
   */
  lemma {:induction false} AddThenRemoveRestores(rows: seq<PolicyRule>, r: PolicyRule)
    requires forall k :: 0 <= k < |rows| ==> !Satisfies(rows[k], DeleteCondition(r))
    ensures Delete(rows + [r], [DeleteCondition(r)]) == rows
  {
    var where := [DeleteCondition(r)];
    assert Delete(rows + [r], where) == Delete(rows, where) by {
      DeleteSnoc(rows, r, where);
      DeleteConditionMatchesItself(r);
      assert Satisfies(r, where[0]);
    }
    assert Delete(rows, where) == rows by {
      forall k | 0 <= k < |rows|
        ensures !SatisfiesAny(rows[k], where)
      {
      }
      DeleteNothingMatches(rows, where);
    }
  }

  /** Without that proviso it does not: a copy added earlier is removed as well. */
  lemma {:induction false} AddThenRemoveDropsEarlierCopy(r: PolicyRule)
    ensures Delete([r] + [r], [DeleteCondition(r)]) == []
  {
    var where := [DeleteCondition(r)];
    DeleteConditionMatchesItself(r);
    assert SatisfiesAny(r, where) by {
      assert Satisfies(r, where[0]);
    }
    DeleteSnoc([r], r, where);
    assert [] + [r] == [r];
    DeleteSnoc([], r, where);
  }

  /**
   * As written, statement i of the batch update matches rows on the encoded
   * newRules[i] and writes the encoded oldRules[i]: it is the statement the
   * single update issues for (newRules[i], oldRules[i]), and it differs from
   * the one the single update issues for (oldRules[i], newRules[i]) whenever
   * the two rules encode differently.
   */
  lemma {:induction false} BatchUpdateSwapsRoles(ptype: string, oldRules: seq<seq<string>>, newRules: seq<seq<string>>)
    ensures var stmts := PairAssignments(ptype, newRules, oldRules);
            |stmts| == Min(|oldRules|, |newRules|) &&
            forall i :: 0 <= i < |stmts| ==>
              && stmts[i].where == StructCondition(BuildPolicyRule(ptype, newRules[i]))
              && stmts[i].values == BuildPolicyRule(ptype, oldRules[i])
              && (BuildPolicyRule(ptype, oldRules[i]) != BuildPolicyRule(ptype, newRules[i])
                  ==> stmts[i] != PairAssignment(ptype, oldRules[i], newRules[i]))
  {
    var stmts := PairAssignments(ptype, newRules, oldRules);
    forall i | 0 <= i < |stmts|
      ensures stmts[i] == PairAssignment(ptype, newRules[i], oldRules[i])
    {
    }
  }

  /**
   * A table holding (p, alice, data1, read): updating that rule to
   * (p, alice, data1, write) changes the row with the single update, and
   * leaves the table unchanged with the batch update as written.
   */
  lemma {:induction false} BatchUpdateMissesTheOldRow()
    ensures var t := Present([BuildPolicyRule("p", ["alice", "data1", "read"])]);
            var oldRules := [["alice", "data1", "read"]];
            var newRules := [["alice", "data1", "write"]];
            var single := PairAssignment("p", oldRules[0], newRules[0]);
            && RunAssignments(t, PairAssignments("p", newRules, oldRules)) == t
            && UpdateResult(t, single.where, single.values) == Present([BuildPolicyRule("p", newRules[0])])
  {
    var oldRule := ["alice", "data1", "read"];
    var newRule := ["alice", "data1", "write"];
    var row := BuildPolicyRule("p", oldRule);
    var newR := BuildPolicyRule("p", newRule);
    var t := Present([row]);
    var two: FieldIndex := 2;
    assert Values(newR)[two] == "write" && Values(row)[two] == "read";
    var swapped := PairAssignment("p", newRule, oldRule);
    assert RunAssignments(t, PairAssignments("p", [newRule], [oldRule])) == t by {
      assert PairAssignments("p", [newRule], [oldRule]) == [swapped] by {
        BatchUpdateSwapsRoles("p", [oldRule], [newRule]);
      }
      RunSingle(t, swapped, _ => true);
      assert !Satisfies(row, swapped.where) by {
        StructConditionMeaning(row, newR);
      }
      assert Update([row], swapped.where, swapped.values) == [row];
    }
    var single := PairAssignment("p", oldRule, newRule);
    assert UpdateResult(t, single.where, single.values) == Present([newR]) by {
      assert Satisfies(row, single.where) by {
        StructConditionMeaning(row, row);
      }
      assert Assign(row, newR) == newR;
      assert Update([row], single.where, single.values) == [newR];
    }
  }

  /**
   * As intended, a batch of one pair has exactly the effect and the
   * outcome of the single update with the same old and new rule.
   */
  lemma {:induction false} IntendedBatchMatchesSingleUpdate(t: Table, ptype: string, oldRule: seq<string>,
                                                            newRule: seq<string>, stepOk: nat -> bool)
    ensures var single := PairAssignment(ptype, oldRule, newRule);
            var stmts := PairAssignments(ptype, [oldRule], [newRule]);
            && RunAssignments(t, stmts) == UpdateResult(t, single.where, single.values)
            && TransactionStatus(t, stmts, stepOk, true) == UpdateStatus(t, single.where, single.values, stepOk(0))
  {
    var single := PairAssignment(ptype, oldRule, newRule);
    var stmts := PairAssignments(ptype, [oldRule], [newRule]);
    assert stmts == [single];
    RunSingle(t, single, stepOk);
  }

  /** Adding the rule (role_1, node_1) twice and removing it once leaves no copy of it. */
  method AddRemoveScenario()
  {
    var adapter := new Adapter(DefaultTableName, Present([]));
    var rule := ["role_1", "node_1"];
    var r := BuildPolicyRule("p", rule);
    var status := adapter.AddPolicy("p", "p", rule, true);
    assert status == Ok && adapter.Rows() == [r];
    status := adapter.AddPolicy("p", "p", rule, true);
    assert adapter.Rows() == [r, r];
    status := adapter.RemovePolicy("p", "p", rule, true);
    AddThenRemoveDropsEarlierCopy(r);
    assert [r] + [r] == [r, r];
    assert adapter.Rows() == [];
  }
}
