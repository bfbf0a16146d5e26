/**
 * The rule codec: a rule of any length, tagged with its policy type, is
 * encoded into the fixed seven-column row, and a row is decoded into the
 * textual rule line handed to the policy model's line loader.
 */
module Codec {
  import opened Schema

  function Min(a: int, b: int): int
  {
    if a <= b then a else b
  }

  /** The part of a rule that fits into v0..v5. */
  function Stored(data: seq<string>): (s: seq<string>)
    ensures |s| == Min(|data|, FieldCount)
    ensures s == data[..|s|]
  {
    data[..Min(|data|, FieldCount)]
  }

  function Blanks(n: nat): (s: seq<string>)
    ensures |s| == n
    ensures forall k :: 0 <= k < n ==> s[k] == ""
  {
    seq(n, _ => "")
  }

  /**
   * `buildPolicyRule`: ptype is kept, column vi takes data[i] when the rule
   * has an entry at i, and stays "" otherwise; entries past v5 are dropped.
   */
  function BuildPolicyRule(ptype: string, data: seq<string>): (r: PolicyRule)
    ensures r.ptype == ptype
    ensures forall i: FieldIndex :: Values(r)[i] == if i < |data| then data[i] else ""
  {
    PolicyRule(ptype,
               if |data| > 0 then data[0] else "",
               if |data| > 1 then data[1] else "",
               if |data| > 2 then data[2] else "",
               if |data| > 3 then data[3] else "",
               if |data| > 4 then data[4] else "",
               if |data| > 5 then data[5] else "")
  }

  /** The value columns of an encoded rule are its stored entries padded with "". */
  lemma EncodedValues(ptype: string, data: seq<string>)
    ensures Values(BuildPolicyRule(ptype, data)) == Stored(data) + Blanks(FieldCount - |Stored(data)|)
  {
    var r := BuildPolicyRule(ptype, data);
    var padded := Stored(data) + Blanks(FieldCount - |Stored(data)|);
    forall i | 0 <= i < FieldCount
      ensures Values(r)[i] == padded[i]
    {
    }
  }

  /** Entries past index 5 never reach the row. */
  lemma EncodeIgnoresExtraEntries(ptype: string, data: seq<string>)
    ensures BuildPolicyRule(ptype, data) == BuildPolicyRule(ptype, Stored(data))
  {
  }

  /** Every row is the encoding of its own policy type and value columns. */
  lemma {:induction false} EncodeOfValues(r: PolicyRule)
    ensures BuildPolicyRule(r.ptype, Values(r)) == r
  {
    var e := BuildPolicyRule(r.ptype, Values(r));
    assert Values(e)[0] == Values(r)[0];
    assert Values(e)[5] == Values(r)[5];
  }

  /**
   * A rule whose type and first six entries fit the declared widths encodes
   * to a row the schema accepts, however long the entries it drops are.
   */
  lemma EncodeFitsSchema(ptype: string, data: seq<string>)
    requires |ptype| <= PTypeWidth
    requires forall k :: 0 <= k < Min(|data|, FieldCount) ==> |data[k]| <= ValueWidth
    ensures FitsSchema(BuildPolicyRule(ptype, data))
  {
  }

  /** The non-empty entries of a sequence, in order. */
  function NonEmpty(s: seq<string>): seq<string>
  {
    if s == [] then []
    else NonEmpty(s[..|s| - 1]) + (if s[|s| - 1] != "" then [s[|s| - 1]] else [])
  }

  /** `head` followed by ", " and each of `values`, in order. */
  function Joined(head: string, values: seq<string>): string
  {
    if values == [] then head
    else Joined(head, values[..|values| - 1]) + ", " + values[|values| - 1]
  }

  /** One `ruleText += ", " + vi` step, taken only for a non-empty column. */
  function AppendColumn(text: string, v: string): string
  {
    if v != "" then text + ", " + v else text
  }

  /** The text `loadPolicyRule` has built after scanning the first k value columns. */
  function DecodedPrefix(r: PolicyRule, k: nat): string
    requires k <= FieldCount
  {
    if k == 0 then r.ptype else AppendColumn(DecodedPrefix(r, k - 1), Values(r)[k - 1])
  }

  /** Appending one column to the scanned prefix appends it to the text exactly when it is non-empty. */
  lemma {:induction false} JoinedNonEmptySnoc(head: string, s: seq<string>, v: string)
    ensures Joined(head, NonEmpty(s + [v])) == AppendColumn(Joined(head, NonEmpty(s)), v)
  {
    assert (s + [v])[..|s + [v]| - 1] == s;
    if v != "" {
      var t := NonEmpty(s) + [v];
      assert t[..|t| - 1] == NonEmpty(s);
    } else {
      assert NonEmpty(s) + [] == NonEmpty(s);
    }
  }

  lemma {:induction false} DecodedPrefixText(r: PolicyRule, k: nat)
    requires k <= FieldCount
    ensures DecodedPrefix(r, k) == Joined(r.ptype, NonEmpty(Values(r)[..k]))
  {
    if k == 0 {
      assert Values(r)[..0] == [];
    } else {
      DecodedPrefixText(r, k - 1);
      assert Values(r)[..k] == Values(r)[..k - 1] + [Values(r)[k - 1]];
      JoinedNonEmptySnoc(r.ptype, Values(r)[..k - 1], Values(r)[k - 1]);
    }
  }

  /** The rule line of a row: its policy type followed by its non-empty columns, in order. */
  function RuleText(r: PolicyRule): string
  {
    Joined(r.ptype, NonEmpty(Values(r)))
  }

  /**
   * `loadPolicyRule`: the rule text that is fed to the model, built by
   * appending ", " + vi for each non-empty vi in order v0..v5.
   */
  method LoadPolicyRule(r: PolicyRule) returns (ruleText: string)
    ensures ruleText == RuleText(r)
  {
    ruleText := r.ptype;
    if r.v0 != "" {
      ruleText := ruleText + ", " + r.v0;
    }
    assert ruleText == DecodedPrefix(r, 1);
    if r.v1 != "" {
      ruleText := ruleText + ", " + r.v1;
    }
    assert ruleText == DecodedPrefix(r, 2);
    if r.v2 != "" {
      ruleText := ruleText + ", " + r.v2;
    }
    assert ruleText == DecodedPrefix(r, 3);
    if r.v3 != "" {
      ruleText := ruleText + ", " + r.v3;
    }
    assert ruleText == DecodedPrefix(r, 4);
    if r.v4 != "" {
      ruleText := ruleText + ", " + r.v4;
    }
    assert ruleText == DecodedPrefix(r, 5);
    if r.v5 != "" {
      ruleText := ruleText + ", " + r.v5;
    }
    assert ruleText == DecodedPrefix(r, 6);
    DecodedPrefixText(r, 6);
    assert Values(r)[..6] == Values(r);
  }

  lemma {:induction false} NonEmptyAppend(a: seq<string>, b: seq<string>)
    ensures NonEmpty(a + b) == NonEmpty(a) + NonEmpty(b)
    decreases |b|
  {
    if b == [] {
      assert a + b == a;
    } else {
      var b' := b[..|b| - 1];
      var last := b[|b| - 1];
      assert a + b == (a + b') + [last];
      assert (a + b)[..|a + b| - 1] == a + b';
      NonEmptyAppend(a, b');
    }
  }

  lemma {:induction false} NonEmptyBlanks(n: nat)
    ensures NonEmpty(Blanks(n)) == []
  {
    if n > 0 {
      assert Blanks(n)[..n - 1] == Blanks(n - 1);
      NonEmptyBlanks(n - 1);
    }
  }

  lemma {:induction false} NonEmptyKeepsFilled(s: seq<string>)
    requires forall k :: 0 <= k < |s| ==> s[k] != ""
    ensures NonEmpty(s) == s
  {
    if s != [] {
      NonEmptyKeepsFilled(s[..|s| - 1]);
      assert s == s[..|s| - 1] + [s[|s| - 1]];
    }
  }

  /**
   * Decoding an encoded rule gives the policy type followed by the
   * non-empty entries among the first six, in order: empty entries vanish.
   */
  lemma {:induction false} DecodeEncode(ptype: string, data: seq<string>)
    ensures RuleText(BuildPolicyRule(ptype, data)) == Joined(ptype, NonEmpty(Stored(data)))
  {
    var r := BuildPolicyRule(ptype, data);
    var st := Stored(data);
    var pad := Blanks(FieldCount - |st|);
    assert Values(r) == st + pad by {
      EncodedValues(ptype, data);
    }
    assert NonEmpty(st + pad) == NonEmpty(st) by {
      NonEmptyAppend(st, pad);
      NonEmptyBlanks(|pad|);
      assert NonEmpty(st) + [] == NonEmpty(st);
    }
  }

  /** A rule of at most six entries, none of them empty, decodes to exactly its entries. */
  lemma {:induction false} DecodeEncodeWithoutGaps(ptype: string, data: seq<string>)
    requires |data| <= FieldCount
    requires forall k :: 0 <= k < |data| ==> data[k] != ""
    ensures RuleText(BuildPolicyRule(ptype, data)) == Joined(ptype, data)
  {
    DecodeEncode(ptype, data);
    assert Stored(data) == data;
    NonEmptyKeepsFilled(data);
  }

  /**
   * An empty entry anywhere in a short rule is invisible after decoding:
   * the positional gap is lost.
   */
  lemma {:induction false} EmptyEntryIsInvisible(ptype: string, data: seq<string>, at: nat)
    requires |data| < FieldCount
    requires at <= |data|
    ensures RuleText(BuildPolicyRule(ptype, data[..at] + [""] + data[at..]))
         == RuleText(BuildPolicyRule(ptype, data))
  {
    var gapped := data[..at] + [""] + data[at..];
    assert NonEmpty(gapped) == NonEmpty(data) by {
      NonEmptyAppend(data[..at] + [""], data[at..]);
      NonEmptyAppend(data[..at], [""]);
      assert NonEmpty([""]) == [] by {
        assert Blanks(1) == [""];
        NonEmptyBlanks(1);
      }
      assert NonEmpty(data[..at] + [""]) == NonEmpty(data[..at]);
      NonEmptyAppend(data[..at], data[at..]);
      assert data[..at] + data[at..] == data;
    }
    assert Stored(gapped) == gapped;
    assert Stored(data) == data;
    DecodeEncode(ptype, gapped);
    DecodeEncode(ptype, data);
  }

  /** A row with exactly v0 and v1 set decodes to "ptype, v0, v1". */
  lemma {:induction false} TwoColumnText(ptype: string, a: string, b: string)
    requires a != "" && b != ""
    ensures RuleText(PolicyRule(ptype, a, b, "", "", "", "")) == ptype + ", " + a + ", " + b
  {
    var data := [a, b];
    assert BuildPolicyRule(ptype, data) == PolicyRule(ptype, a, b, "", "", "", "");
    DecodeEncodeWithoutGaps(ptype, data);
    assert Joined(ptype, [a]) == ptype + ", " + a by {
      assert [a][..0] == [];
    }
    assert data[..1] == [a];
    assert Joined(ptype, data) == Joined(ptype, [a]) + ", " + b;
  }

  /** The rows of the two-row scenario decode to the expected rule lines. */
  lemma DecodeScenario()
    ensures RuleText(PolicyRule("p", "role_1", "node_1", "", "", "", "")) == "p, role_1, node_1"
    ensures RuleText(PolicyRule("g", "user_1", "role_1", "", "", "", "")) == "g, user_1, role_1"
  {
    assert RuleText(PolicyRule("p", "role_1", "node_1", "", "", "", "")) == "p, role_1, node_1" by {
      TwoColumnText("p", "role_1", "node_1");
    }
    assert RuleText(PolicyRule("g", "user_1", "role_1", "", "", "", "")) == "g, user_1, role_1" by {
      TwoColumnText("g", "user_1", "role_1");
    }
  }
}
