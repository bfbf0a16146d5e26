# A model of the gorm-casbin policy storage adapter

The adapter keeps the policy rules of an authorization model in one
relational table. It has seven string columns: `ptype`, then the positional
columns `v0`..`v5`. A rule is a policy type plus a list of strings of any
length. The model follows the rule through every path the adapter offers:

- encoding a rule into a row (`buildPolicyRule`);
- decoding a row into the rule line given to the model (`loadPolicyRule`);
- the three ways of deleting:
  - by an encoded rule, where empty columns are don't-care;
  - by a window of filter values;
  - by an OR of per-rule conjunctions, where an empty value is a constraint;
- single and paired updates, the paired ones inside a transaction;
- adding one rule or a batch;
- loading every row;
- saving a whole model: drop, recreate, then insert once.

Modules:

- `Schema` (schema.dfy): the table, its columns and names, and the row
  record. It also models CREATE TABLE IF NOT EXISTS and DROP TABLE IF EXISTS.
- `Codec` (codec.dfy): rule ⇄ row and row → rule line.
- `Query` (query.dfy): the conditions the adapter builds and what a row
  must satisfy to match them. It also holds the column assignment that
  `Updates(struct)` performs.
- `Storage` (storage.dfy): what one DELETE or UPDATE does to the rows, and
  the outcome of one statement.
- `PolicyAdapter` (adapter.dfy): the `Adapter` class and the operations on
  it. It has two fields: the table name, fixed at construction, and the
  table, which its methods update in place. The
  module also holds the lemmas that relate several operations.

The database's answers are parameters. Each statement gets a boolean for
"the backend succeeded"; the paired updates get one per statement and one
for the commit. A failing statement leaves the table as it was.

The model relies on these semantics of the ORM:

- `Where(map)` constrains every key of the map.
- `Where(struct)` constrains only the non-empty fields of the struct.
- `Updates(struct)` writes only the non-empty fields. When no field is
  set, no statement is issued and the call succeeds.
- An UPDATE or DELETE without any condition is refused with a
  missing-where-clause error. The check that there is nothing to set comes
  first, so an update with no condition and nothing to set succeeds. This
  affects three operations:
  - `RemovePolicies` with no rules is refused.
  - `UpdatePolicy` is refused when the policy type and every stored entry of
    the old rule are empty and some stored entry of the new rule is not.
  - `UpdatePolicies` is refused when one of its pairs is refused in that
    way. As written, that pair's matched rule is the one from `newRules`.
    The refusal aborts the whole transaction.
- `CreateInBatches` with a batch size equal to the number of rows is one
  insert that succeeds or fails as a whole.

The model reads the code, not the names of the operations. Casbin's
`persist.Adapter` and `persist.UpdatableAdapter` interfaces suggest three
readings that the code does not bear out:

- `UpdatePolicy(sec, ptype, oldRule, newRule)` reads as "replace the stored
  rule oldRule by newRule". The code passes the encoded rules as structs to
  `Where` and `Updates`. So it matches every row that agrees with the
  non-empty columns of the encoded old rule, and writes only the non-empty
  columns of the encoded new rule. `PolicyAdapter.UpdatePolicyEffect`
  states what the code does. One consequence: updating (alice, data1, read)
  to the shorter (alice, data1) leaves "read" in v2
  (`PolicyAdapter.ShorterNewRuleKeepsOldColumns`).
- Adding a rule with `AddPolicy` and then removing it with `RemovePolicy`
  restores the table only when no row already in the table matches the
  rule's delete condition. `RemovePolicy` deletes every matching row,
  including copies added earlier: compare
  `PolicyAdapter.AddThenRemoveRestores` with
  `PolicyAdapter.AddThenRemoveDropsEarlierCopy`.
- `UpdatePolicies(sec, ptype, oldRules, newRules)` reads as `UpdatePolicy`
  applied pair by pair. The code swaps the two rules; see Findings.

## Model

| member | source | states |
|---|---|---|
| `Schema.Unset` | adapter.go:248 | the record with only the policy type set has the given ptype and "" in every value column |
| `Schema.RowDeterminedByColumns` | model.go:40-48 | two rows are equal if and only if they agree on all seven columns |
| `Schema.FormattedNamesAgree` | adapter.go:179 | the name built with "v%d" for value column i is the column's name in the column table |
| `Schema.ColumnName` | model.go:19-27 | definition of the column-name table: ptype is "ptype", value column i is "vi"; its properties are `Schema.ColumnNamesDistinct` and `Schema.FormattedNamesAgree` |
| `Schema.ColumnNamesDistinct` | model.go:19-27 | two columns have the same name if and only if they are the same column |
| `Schema.CreateIfNotExists` | model.go:6-16 | afterwards the table exists; an existing table keeps its rows; a new one is empty |
| `Schema.DropIfExists` | model.go:5 | afterwards the table is absent, whether or not it existed |
| `Schema.CreateIsIdempotent` | model.go:6-16 | creating twice is the same as creating once |
| `Schema.DropThenCreateIsEmpty` | adapter.go:79-87 | dropping then creating yields an existing, empty table |
| `Codec.Stored` | adapter.go:250-272 | the entries that reach v0..v5 are the first min(len, 6) entries of the rule |
| `Codec.BuildPolicyRule` | adapter.go:247-275 | the row keeps the ptype; column vi holds data[i] when the rule has an entry at i, and "" otherwise |
| `Codec.EncodedValues` | adapter.go:247-275 | the value columns of an encoded rule are its stored entries padded with "" to six |
| `Codec.EncodeIgnoresExtraEntries` | adapter.go:270-272 | entries past the sixth do not change the row |
| `Codec.EncodeOfValues` | adapter.go:247-275 | every row is the encoding of its own ptype and value columns, so encoding is onto the rows |
| `Codec.EncodeFitsSchema` | model.go:8-14 | a rule whose ptype and first six entries fit the declared widths encodes to a row the schema accepts, whatever the length of the entries it drops |
| `Codec.JoinedNonEmptySnoc` | adapter.go:219-221 | appending one column to the scanned prefix adds ", " + value exactly when the value is non-empty |
| `Codec.DecodedPrefixText` | adapter.go:217-241 | after scanning the first k columns, the text is ptype joined with the non-empty columns among them |
| `Codec.RuleText` | adapter.go:217-241 | definition of the rule line of a row: the ptype joined by ", " with the non-empty columns in order; `Codec.LoadPolicyRule` proves the six-step loop computes it, `Codec.DecodeEncode` relates it to encoding |
| `Codec.LoadPolicyRule` | adapter.go:216-244 | the rule line is the ptype followed by ", " and each non-empty column, in order v0..v5 |
| `Codec.DecodeEncode` | adapter.go:216-275 | decoding an encoded rule gives the ptype followed by the non-empty entries among the first six, in order |
| `Codec.DecodeEncodeWithoutGaps` | adapter.go:216-275 | a rule of at most six entries, none empty, decodes to ptype followed by exactly its entries (round trip) |
| `Codec.EmptyEntryIsInvisible` | adapter.go:219-241 | inserting an empty entry anywhere into a short rule does not change the decoded line: the positional gap is lost |
| `Codec.TwoColumnText` | adapter.go:216-241 | a row with v0 = a and v1 = b, both non-empty, decodes to "ptype, a, b" |
| `Codec.DecodeScenario` | adapter.go:216-241 | the rows (p, role_1, node_1) and (g, user_1, role_1) decode to "p, role_1, node_1" and "g, user_1, role_1" |
| `Query.ColumnConditionMeaning` | adapter.go:282-284 | the clause a column adds to the delete map is satisfied if and only if the column is empty in the rule or equal in the row |
| `Query.ValueConditionsMeaning` | adapter.go:282-304 | a row satisfies the value clauses if and only if it agrees with every non-empty value column of the rule |
| `Query.DeleteCondition` | adapter.go:279-304 | the where map always holds the ptype entry, even an empty one, so the delete is never unconditioned, and at most seven entries (the model lists the ptype clause first; the map itself has no order); its meaning is `Query.DeleteConditionMeaning` |
| `Query.DeleteConditionMeaning` | adapter.go:278-307 | a row is deleted for a rule if and only if its ptype equals the rule's and it agrees on every non-empty value column |
| `Query.DeleteConditionMatchesItself` | adapter.go:278-307 | every row matches the delete condition built from itself |
| `Query.StructCondition` | adapter.go:194 | definition of `Where(struct)`: one clause per non-empty column; its meaning is `Query.StructConditionMeaning` and `Query.StructConditionEmpty` |
| `Query.StructConditionMeaning` | adapter.go:194 | a row satisfies `Where(struct)` if and only if it agrees with every non-empty column of the struct, ptype included |
| `Query.StructConditionEmpty` | adapter.go:194 | `Where(struct)` has no condition if and only if every column of the struct is empty |
| `Query.Assign` | adapter.go:194 | definition of `Updates(struct)` on one row; its meaning is `Query.AssignColumns` and `Query.AssignEstablishesValues` |
| `Query.AssignColumns` | adapter.go:194 | after `Updates(struct)` each column holds the struct's value when it is non-empty, and the row's old value otherwise |
| `Query.AssignEstablishesValues` | adapter.go:194 | after `Updates(struct)` the row agrees with every non-empty column of the struct |
| `Query.AssignIdempotent` | adapter.go:194 | applying the same assignment twice is the same as applying it once |
| `Query.AssignFullRecord` | adapter.go:194 | a struct with every column set overwrites the row completely |
| `Query.FilterRule` | adapter.go:137-162 | the filter record has the ptype; vi = fieldValues[i - fieldIndex] inside the window [fieldIndex, fieldIndex + len), "" elsewhere; every index used is in bounds |
| `Query.FilterConditionMeaning` | adapter.go:137-165 | filtered removal deletes exactly the rows with the ptype that carry every non-empty filter value in its column inside the window |
| `Query.FilterOnSingleColumn` | adapter.go:148-150 | the filter (ptype, 2, "x") matches exactly the rows with that ptype and v2 = "x", whatever the other columns hold |
| `Query.SuppliedClause` | adapter.go:172-182 | one rule's conjunction: the ptype clause first, then one clause per position the rule supplies up to six, so it is never empty; its meaning is `Query.SuppliedClauseMeaning` |
| `Query.SuppliedClauseMeaning` | adapter.go:172-182 | a row satisfies one rule's conjunction if and only if it has the ptype and equals the rule at every position the rule supplies, empty values included |
| `Query.BuildRuleClause` | adapter.go:172-182 | the loop builds ptype = ? followed by vi = rule[i] for every i < min(len(rule), 6), and the result is never empty |
| `Query.SuppliedClauses` | adapter.go:171-187 | the chain of `Or` clauses has one conjunction per rule |
| `Query.SuppliedClausesMeaning` | adapter.go:168-189 | a row satisfies the OR of the conjunctions if and only if it matches at least one rule |
| `Query.BatchRemovalScenario` | adapter.go:168-189 | rules [[a, b], [c]] match the rows with the ptype and (v0 = a and v1 = b) or v0 = c; the shorter rule leaves v1 unconstrained |
| `Query.EmptyValueConstrainsOnlyInBatch` | adapter.go:177-182 | the rule [a, ""] removes the row (ptype, a, x) one at a time but not in a batch: an empty value is don't-care in one and a constraint in the other |
| `Storage.StatementStatus` | adapter.go:306 | a statement succeeds if and only if the table exists and the backend succeeds; a missing table is reported as such |
| `Storage.Delete` | adapter.go:306 | definition of DELETE: the rows that satisfy no conjunction stay, in order; its own contract says only that no row is added; multiplicities are `Storage.DeleteCounts` |
| `Storage.DeleteSnoc` | adapter.go:306 | a row appended to the table is kept or deleted on its own merits, and the rows before it are unaffected |
| `Storage.DeleteCounts` | adapter.go:306 | after a DELETE, a matching row occurs zero times and any other row keeps its multiplicity |
| `Storage.DeleteNothingMatches` | adapter.go:306 | a DELETE that no row satisfies leaves the rows exactly as they were |
| `Storage.DeleteIdempotent` | adapter.go:306 | deleting twice with the same condition deletes nothing more |
| `Storage.Update` | adapter.go:194 | an UPDATE keeps the number of rows; each matching row is assigned and every other row is unchanged |
| `Storage.UpdatedRowsCarryValues` | adapter.go:194 | every row the UPDATE touched agrees with every non-empty column of the written struct |
| `Storage.UpdateIdempotent` | adapter.go:194 | running the same UPDATE twice has the effect of running it once |
| `Storage.UpdateNothingMatches` | adapter.go:194 | an UPDATE that no row satisfies leaves the rows exactly as they were |
| `PolicyAdapter.TableName` | adapter.go:35-37 | the table name is never empty: the configured name when there is one, and "casbin_policy" otherwise |
| `PolicyAdapter.EncodeAll` | adapter.go:123-126 | one row per rule, in input order, each the encoding of its rule |
| `PolicyAdapter.EncodeRules` | adapter.go:123-126 | the encoding loop yields the rows of `EncodeAll` |
| `PolicyAdapter.SectionDeterminesRows` | adapter.go:90-94 | any two row lists holding the same section are permutations of each other, whatever order the map was visited in |
| `PolicyAdapter.HoldsSectionEmpty` | adapter.go:102 | the rows of a section are empty if and only if the section has no rules |
| `PolicyAdapter.AppendSection` | adapter.go:90-94 | the loop keeps the rows collected so far as a prefix and appends exactly the encoded rules of every policy type, each type's rules in order |
| `PolicyAdapter.SnapshotDeterminesRows` | adapter.go:89-100 | two row lists holding the "p" section then the "g" section are permutations of each other |
| `PolicyAdapter.CollectRules` | adapter.go:89-100 | the collected rows hold the "p" section followed by the "g" section, and are empty if and only if both sections have no rules |
| `PolicyAdapter.AcceptedLines` | adapter.go:70-72 | definition of what the loader receives: the rule line of each row in scan order, keeping those it accepts; `PolicyAdapter.LoadLines` proves the scan loop computes it, `PolicyAdapter.AllLinesLoaded` relates it to decoding every row |
| `PolicyAdapter.LoadLines` | adapter.go:70-72 | the scan loop hands over the decoding of every row, in scan order; a row the loader rejects is skipped and loading goes on |
| `PolicyAdapter.DecodeRows` | adapter.go:70-72 | one rule line per row, line k being the rule line of row k |
| `PolicyAdapter.AllLinesLoaded` | adapter.go:70-72 | with a loader that accepts every line, the loaded lines are the decodings of all rows in scan order |
| `PolicyAdapter.LoadScenario` | adapter.go:62-75 | the rows (p, role_1, node_1) and (g, user_1, role_1) load as "p, role_1, node_1" and "g, user_1, role_1" |
| `PolicyAdapter.UpdateStatus` | adapter.go:194 | an update succeeds if and only if there is nothing to set, or it has a condition, the table exists and the backend succeeds |
| `PolicyAdapter.UpdateResult` | adapter.go:194 | an update never creates the table and never changes the number of rows |
| `PolicyAdapter.EncodesToBlank` | adapter.go:247-275 | a rule encodes to the all-blank record if and only if its ptype and every stored entry are empty |
| `PolicyAdapter.UpdateConditionEmpty` | adapter.go:194 | the update's condition is empty if and only if the ptype and every stored entry of the matched rule are empty |
| `PolicyAdapter.UpdateRefused` | adapter.go:194 | an update is refused by the missing-where guard if and only if the ptype and every stored entry of the matched rule are empty and some stored entry of the written rule is not; with nothing to set it is never refused |
| `PolicyAdapter.UpdateNothingToSet` | adapter.go:194 | an update with nothing to set leaves the table unchanged |
| `PolicyAdapter.PairAssignment` | adapter.go:194 | definition of the statement `Where(build(matchRule)).Updates(build(writeRule))`; its effect is `PolicyAdapter.UpdatePolicyEffect`, its empty-condition case `PolicyAdapter.UpdateConditionEmpty`, its refusal `PolicyAdapter.UpdateRefused` |
| `PolicyAdapter.UpdatePolicyEffect` | adapter.go:193-195 | column by column: a row agreeing with every non-empty column of the encoded old rule takes every non-empty column of the encoded new rule and keeps the rest; other rows are unchanged |
| `PolicyAdapter.ShorterNewRuleKeepsOldColumns` | adapter.go:194 | updating (p, alice, data1, read) to the shorter rule (alice, data1) leaves the row unchanged: the empty v2 of the new rule is not written, so "read" stays |
| `PolicyAdapter.PairAssignments` | adapter.go:204-205 | one statement per index below min(len(old), len(new)); statement i matches on the first list's rule i and writes the second's |
| `PolicyAdapter.PairAssignmentsIgnoreExtra` | adapter.go:204 | rules past the length of the shorter list do not change the batch |
| `PolicyAdapter.RunAssignments` | adapter.go:204-209 | definition of the table after every statement of a batch, in order; `PolicyAdapter.RunKeepsRowCount` and `PolicyAdapter.RunSingle` state its properties |
| `PolicyAdapter.RunStatus` | adapter.go:204-209 | definition of a batch's outcome: the first failing statement, else success; `PolicyAdapter.RunStatusSticky` states that a failure is final |
| `PolicyAdapter.TransactionStatus` | adapter.go:203-212 | definition of the transaction's outcome: the first failing statement, else the commit's outcome; `PolicyAdapter.Adapter.RunPairedUpdates` keeps the table unless it is success |
| `PolicyAdapter.RunStatusSticky` | adapter.go:206-208 | once a statement fails, the outcome of the batch is that failure |
| `PolicyAdapter.RunKeepsRowCount` | adapter.go:203-212 | a batch of updates never creates the table and never changes the number of rows |
| `PolicyAdapter.RunSingle` | adapter.go:203-212 | a batch of one statement has that statement's effect and outcome |
| `PolicyAdapter.ApplyPairs` | adapter.go:204-211 | the loop stops at the first failing statement and reports it; on success the working copy is the table after every statement in order |
| `PolicyAdapter.Adapter.NewAdapter` | adapter.go:18-45 | an unsupported argument fails with invalid-database; a failed connection fails; on success the adapter has the configured or default table name and its table exists with any existing rows kept; it returns an adapter if and only if it succeeds |
| `PolicyAdapter.Adapter.CreatePolicyTable` | adapter.go:52-54 | on success the table exists with its rows kept; on failure it is unchanged |
| `PolicyAdapter.Adapter.DropPolicyTable` | adapter.go:57-59 | on success the table is absent; on failure it is unchanged |
| `PolicyAdapter.Adapter.LoadPolicy` | adapter.go:62-75 | only a failed scan or a missing table is an error; otherwise the loader receives the decoding of every row, and its verdicts do not change the outcome |
| `PolicyAdapter.Adapter.Insert` | adapter.go:114 | on success the rows are appended in order; on failure the table is unchanged |
| `PolicyAdapter.Adapter.SavePolicy` | adapter.go:78-110 | a failed drop changes nothing; a failed create leaves no table; after the create any failure leaves an empty table; success if and only if every phase succeeds or there is nothing to insert; on success the table holds the "p" section followed by the "g" section; an empty model gives an empty table |
| `PolicyAdapter.Adapter.AddPolicy` | adapter.go:113-115 | on success the encoded rule is appended, so adding twice stores two rows; on failure the table is unchanged |
| `PolicyAdapter.Adapter.AddPolicies` | adapter.go:118-129 | no rules means success with nothing changed; otherwise the encoded rules are appended in input order, all or none |
| `PolicyAdapter.Adapter.ExecDelete` | adapter.go:189 | a delete without a condition is refused and changes nothing; otherwise on success the matching rows are removed |
| `PolicyAdapter.Adapter.DeletePolicyRule` | adapter.go:278-307 | on success the rows matching the ptype and every non-empty column of the rule are removed; on failure nothing changes |
| `PolicyAdapter.Adapter.RemovePolicy` | adapter.go:132-134 | on success the rows matching the encoded rule, empty columns don't-care, are removed |
| `PolicyAdapter.Adapter.RemoveFilteredPolicy` | adapter.go:137-165 | on success the rows matching the filter record are removed |
| `PolicyAdapter.Adapter.RemovePolicies` | adapter.go:168-190 | no rules means refused and nothing changed; otherwise on success the rows matching any rule's conjunction are removed |
| `PolicyAdapter.Adapter.ExecUpdate` | adapter.go:194 | on success the table is the updated table; on failure it is unchanged |
| `PolicyAdapter.Adapter.UpdatePolicy` | adapter.go:193-195 | matches on the encoded old rule and writes the encoded new rule; on failure the table is unchanged |
| `PolicyAdapter.Adapter.RunPairedUpdates` | adapter.go:203-212 | the transaction: the first failing statement or a failed commit leaves the table unchanged; otherwise every statement is applied in order |
| `PolicyAdapter.Adapter.UpdatePolicies` | adapter.go:198-213 | as written: an empty list means success with nothing changed; otherwise pair i matches on newRules[i] and writes oldRules[i], in one transaction |
| `PolicyAdapter.Adapter.UpdatePoliciesIntended` | adapter.go:198-213 | corrected: pair i matches on oldRules[i] and writes newRules[i], in one transaction, all or nothing |
| `PolicyAdapter.AddThenRemoveRestores` | adapter.go:113-134 | adding a rule and then removing it restores the table when no row already matches the rule's delete condition |
| `PolicyAdapter.AddThenRemoveDropsEarlierCopy` | adapter.go:278-306 | removing a rule that was added twice removes both copies |
| `PolicyAdapter.BatchUpdateSwapsRoles` | adapter.go:204-205 | as written, for lists of any length, statement i matches on the encoded newRules[i] and writes the encoded oldRules[i]; it differs from the single update's statement for (oldRules[i], newRules[i]) whenever the two rules encode differently |
| `PolicyAdapter.BatchUpdateMissesTheOldRow` | adapter.go:205 | on a table holding (p, alice, data1, read), the batch update as written to (alice, data1, write) leaves the table unchanged, while the single update rewrites the row |
| `PolicyAdapter.IntendedBatchMatchesSingleUpdate` | adapter.go:193-213 | the corrected batch of one pair has the effect and the outcome of the single update |

## Left out

- Connecting to the database (database.go) is not part of this model. Its outcome is the `connectOk` parameter of `NewAdapter`. The optional logger is ignored.
- The enforcer wrapper (enforcer.go) is not part of this model. Neither is the policy model or its line parser (`persist.LoadPolicyLine`): it is the `accepts` parameter, whose verdict the adapter discards.
- The SQL text of the statements, the `%s` table-name substitution and `model()` (adapter.go:47-49) are not modelled. The adapter is modelled with its one table.
- The column widths VARCHAR(10) and VARCHAR(256) are checked by the database, not by the adapter. `Codec.EncodeFitsSchema` states when a row fits them. No contract ties them to an outcome: a width violation is left to the `backendOk` parameter of the insert or update. This assumes strict SQL mode, where the database rejects the statement. A server that silently truncates the value is not modelled.
- Column comparison is exact string equality, which is binary collation. The table's DDL sets no collation. A server whose default collation ignores case or trailing spaces matches more rows on delete, filtered delete and update than `Query.Satisfies` says. That behaviour is not modelled.
- Failures of the backend are booleans chosen by the caller. Which condition makes the database fail, and a partial failure inside one batch insert, are not modelled: `CreateInBatches` with one batch is all or nothing.
- The transaction's begin and rollback are implicit: the working copy is discarded. The commit's outcome is `commitOk`.
- Concurrency is left out, and with it the interleaving of calls from several goroutines.
- `math.Min` on `float64` is integer `Min`, which is exact for any list length Go can hold.
- Scan order is modelled as the order of the rows in the table. Insertion appends.
- In `SavePolicy`, Go's map iteration order is an arbitrary choice of the next policy type. The result is stated up to that order: per type, in order, and as a multiset.
- The `sec` parameter is unused by the adapter and by the model.
- `Storage.Delete`: its own contract states only that no row is added. Which rows stay, and how often, is stated by `Storage.DeleteCounts`, `Storage.DeleteSnoc` and `Storage.DeleteNothingMatches`.
- `PolicyAdapter.UpdateResult`: its own contract states only that the table is kept and the row count is unchanged. The row-by-row effect is stated by `Storage.Update` and `PolicyAdapter.UpdatePolicyEffect`.

## Findings

| source | as written | input that shows it | evidently intended | confidence | as-written member | corrected member |
|---|---|---|---|---|---|---|
| adapter.go:205 | each pair runs `Where(build(newRules[i])).Updates(build(oldRules[i]))`: it matches rows on the NEW rule and writes the OLD one | table [(p, alice, data1, read)], oldRules [[alice, data1, read]], newRules [[alice, data1, write]]: the batch matches no row and the table is unchanged, while `UpdatePolicy` with the same rules rewrites the row to write | pair i does what `UpdatePolicy` (adapter.go:194) does for (oldRules[i], newRules[i]) | not executed | `PolicyAdapter.BatchUpdateMissesTheOldRow` | `PolicyAdapter.IntendedBatchMatchesSingleUpdate` |
