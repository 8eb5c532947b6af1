/** Exclusion rules (who may not draw whom), family groups, the pairwise
    `canPick` test and the administrator's feasibility check. */
module ExclusionService {
  import opened Common
  import opened Schema
  import Validation

  const SelfExclusionError: string := "A participant cannot exclude themselves"
  const DuplicateRuleError: string := "This exclusion rule already exists"
  const FamilyTooSmallError: string := "At least 2 participants required for a family group"
  const FamilyReason: string := "family"

  /** The `exclusion_rules` table with its AUTO_INCREMENT counter. */
  datatype RuleTable = RuleTable(rows: seq<ExclusionRule>, nextId: Id)

  /** The primary key, the unique (participant, excluded) key, and the rule
      that nobody excludes themselves. */
  predicate RuleTableValid(t: RuleTable)
  {
    && DistinctBy(t.rows, RuleKey)
    && AllBelow(t.rows, RuleKey, t.nextId)
    && DistinctBy(t.rows, RulePair)
    && forall r :: r in t.rows ==> r.participant != r.excluded
  }

  /** What `addExclusion` returns. */
  datatype AddResult = Added(exclusionId: Id) | Failed(error: string)

  datatype RuleAdd = RuleAdd(result: AddResult, table: RuleTable)

  // ---------------------------------------------------------------------
  // addExclusion / removeExclusion

  /** One INSERT into the rule table: refused for a self-exclusion and, by the
      unique key, for a pair that is already there. */
  function AddRule(t: RuleTable, participant: Id, excluded: Id, reason: Option<string>): RuleAdd
  {
    if participant == excluded then RuleAdd(Failed(SelfExclusionError), t)
    else if Excludes(t.rows, participant, excluded) then RuleAdd(Failed(DuplicateRuleError), t)
    else
      RuleAdd(Added(t.nextId),
              RuleTable(t.rows + [ExclusionRule(t.nextId, participant, excluded, reason)], t.nextId + 1))
  }

  /** A rejected insert changes nothing; an accepted one appends exactly one
      fresh rule for the pair. Afterwards the pair is excluded exactly when it
      is not a self-pair, and every earlier rule is still there. */
  lemma AddRuleOutcome(t: RuleTable, participant: Id, excluded: Id, reason: Option<string>)
    requires RuleTableValid(t)
    ensures var a := AddRule(t, participant, excluded, reason);
      && (a.result.Failed? <==> participant == excluded || Excludes(t.rows, participant, excluded))
      && (participant == excluded ==> a.result == Failed(SelfExclusionError))
      && (participant != excluded && Excludes(t.rows, participant, excluded) ==>
            a.result == Failed(DuplicateRuleError))
      && (a.result.Failed? ==> a.table == t)
      && (a.result.Added? ==>
            && a.table.rows == t.rows + [ExclusionRule(a.result.exclusionId, participant, excluded, reason)]
            && forall r :: r in t.rows ==> r.id != a.result.exclusionId)
      && (Excludes(a.table.rows, participant, excluded) <==> participant != excluded)
      && RuleTableValid(a.table)
  {
    var a := AddRule(t, participant, excluded, reason);
    if a.result.Added? {
      var x := ExclusionRule(t.nextId, participant, excluded, reason);
      DistinctAppend(t.rows, x, RuleKey, t.nextId);
      assert x in a.table.rows;
      forall i, j | 0 <= i < j < |a.table.rows| ensures RulePair(a.table.rows[i]) != RulePair(a.table.rows[j]) {
        if j == |t.rows| {
          assert a.table.rows[i] in t.rows;
        }
      }
    } else if participant == excluded {
      assert !Excludes(t.rows, participant, excluded);
    }
  }

  method AddExclusion(db: Database, participant: Id, excluded: Id, reason: Option<string> := None)
    returns (r: AddResult)
    modifies db`exclusions, db`nextExclusionId
    ensures var a := AddRule(RuleTable(old(db.exclusions), old(db.nextExclusionId)), participant, excluded, reason);
      r == a.result && RuleTable(db.exclusions, db.nextExclusionId) == a.table
  {
    var a := AddRule(RuleTable(db.exclusions, db.nextExclusionId), participant, excluded, reason);
    r := a.result;
    db.exclusions, db.nextExclusionId := a.table.rows, a.table.nextId;
  }

  // ---------------------------------------------------------------------
  // POST /admin/exclusions: the validator, the controller and addExclusion

  /** The id MySQL stores for a body value the validator accepted: the
      integral number itself, or the integer a decimal string spells. */
  function StoredId(v: Value): (id: Id)
    requires Validation.IsIntIn(v, 1, None)
    ensures v.Num? ==> id as real == v.x
    ensures v.Str? ==> Validation.IntegerText(v.s) == Some(id)
  {
    match v
    case Num(x) => x.Floor
    case Str(s) => Validation.IntegerText(s).value
  }

  /** The validator's `trim()` sanitizer rewrites the reason the controller
      then reads. */
  function TrimmedReason(reason: Option<string>): (r: Option<string>)
    ensures r.Some? <==> reason.Some?
    ensures r.Some? ==> r.value == Validation.Trim(reason.value)
  {
    match reason
    case None => None
    case Some(t) => Some(Validation.Trim(t))
  }

  /** A request refused by the validator with its errors, or the service's
      answer and the rule table after it. */
  datatype RuleRequest = Invalid(errors: seq<Validation.FieldError>) | Handled(add: RuleAdd)

  /** The route as written: the controller hands the raw body values to
      `addExclusion`, whose self-check is `===` on those values, and the
      INSERT stores the integers MySQL reads from them. */
  function AddRequestAsWritten(t: RuleTable, pv: Value, ev: Value, reason: Option<string>): (r: RuleRequest)
    ensures r.Invalid? <==> Validation.ExclusionRuleErrors(pv, ev, reason) != []
    ensures r.Handled? ==> r.add.result.Failed? ==> r.add.table == t
    ensures r.Handled? && r.add.result.Added? ==>
      r.add.table.rows == t.rows + [ExclusionRule(t.nextId, StoredId(pv), StoredId(ev), TrimmedReason(reason))]
  {
    var errors := Validation.ExclusionRuleErrors(pv, ev, reason);
    if errors != [] then Invalid(errors)
    else if StrictEquals(pv, ev) then Handled(RuleAdd(Failed(SelfExclusionError), t))
    else
      var p, e := StoredId(pv), StoredId(ev);
      if Excludes(t.rows, p, e) then Handled(RuleAdd(Failed(DuplicateRuleError), t))
      else Handled(RuleAdd(Added(t.nextId),
                           RuleTable(t.rows + [ExclusionRule(t.nextId, p, e, TrimmedReason(reason))], t.nextId + 1)))
  }

  /** The body `{participantId: 3, excludedParticipantId: "3"}` passes the
      validator and the service's `===`, and the INSERT stores the rule
      "3 may not draw 3", which breaks the table's invariant. */
  lemma MixedTypesStoreSelfRule(t: RuleTable)
    requires RuleTableValid(t)
    ensures var r := AddRequestAsWritten(t, Num(3.0), Str("3"), None);
      && r.Handled? && r.add.result == Added(t.nextId)
      && ExclusionRule(t.nextId, 3, 3, None) in r.add.table.rows
      && !RuleTableValid(r.add.table)
  {
    Validation.SelfCheckComparesRawValues();
    assert Validation.IntegerText("3") == Some(3);
    assert !Excludes(t.rows, 3, 3);
    var r := AddRequestAsWritten(t, Num(3.0), Str("3"), None);
    assert r.add.table.rows[|t.rows|] == ExclusionRule(t.nextId, 3, 3, None);
  }

  /** The route as intended: the self-check compares the ids that are
      stored, so past the validator the request is `AddRule` on them. */
  function AddRequest(t: RuleTable, pv: Value, ev: Value, reason: Option<string>): (r: RuleRequest)
    ensures r.Invalid? <==> Validation.ExclusionRuleErrors(pv, ev, reason) != []
    ensures r.Invalid? ==> r.errors == Validation.ExclusionRuleErrors(pv, ev, reason)
  {
    var errors := Validation.ExclusionRuleErrors(pv, ev, reason);
    if errors != [] then Invalid(errors)
    else Handled(AddRule(t, StoredId(pv), StoredId(ev), TrimmedReason(reason)))
  }

  /** Whatever the body, the intended route keeps the table valid: nobody
      ever excludes themselves, and the same id in two spellings is refused
      as a self-exclusion. */
  lemma AddRequestKeepsRulesValid(t: RuleTable, pv: Value, ev: Value, reason: Option<string>)
    requires RuleTableValid(t)
    ensures var r := AddRequest(t, pv, ev, reason);
      && (r.Handled? ==> RuleTableValid(r.add.table))
      && (r.Handled? && StoredId(pv) == StoredId(ev) ==> r.add == RuleAdd(Failed(SelfExclusionError), t))
  {
    if Validation.ExclusionRuleErrors(pv, ev, reason) == [] {
      AddRuleOutcome(t, StoredId(pv), StoredId(ev), TrimmedReason(reason));
    }
  }

  /** The two routes differ only on a self-pair spelled two ways: when the
      validator refuses the body, or the stored ids differ, they give the
      same answer and the same table. */
  lemma AddRequestAgreesOffMixed(t: RuleTable, pv: Value, ev: Value, reason: Option<string>)
    requires Validation.ExclusionRuleErrors(pv, ev, reason) == [] ==> StoredId(pv) != StoredId(ev)
    ensures AddRequestAsWritten(t, pv, ev, reason) == AddRequest(t, pv, ev, reason)
  {
  }

  function RuleIdIsNot(id: int): ExclusionRule -> bool
  {
    (r: ExclusionRule) => r.id != id
  }

  /** `DELETE FROM exclusion_rules WHERE id = ?`, and whether a row went. */
  function RemoveRule(t: RuleTable, id: int): (bool, RuleTable)
  {
    (exists r :: r in t.rows && r.id == id, RuleTable(Filter(t.rows, RuleIdIsNot(id)), t.nextId))
  }

  /** `deleted` is true exactly when a rule had that id; that rule is gone,
      every other rule stays, and one row fewer remains when one was deleted. */
  lemma RemoveRuleOutcome(t: RuleTable, id: int)
    requires RuleTableValid(t)
    ensures var (deleted, t') := RemoveRule(t, id);
      && (deleted <==> exists r :: r in t.rows && r.id == id)
      && (forall r :: r in t'.rows <==> r in t.rows && r.id != id)
      && |t'.rows| == |t.rows| - (if deleted then 1 else 0)
      && RuleTableValid(t')
  {
    var (deleted, t') := RemoveRule(t, id);
    var f := RuleIdIsNot(id);
    FilterPartition(t.rows, f);
    FilterKeepsDistinct(t.rows, f, RuleKey);
    FilterKeepsDistinct(t.rows, f, RulePair);
    FilterKeepsBelow(t.rows, f, RuleKey, t.nextId);
    var gone := Filter(t.rows, Not(f));
    FilterKeepsDistinct(t.rows, Not(f), RuleKey);
    forall i | 0 <= i < |gone| ensures gone[i] in t.rows && RuleKey(gone[i]) == id {
      assert gone[i] in gone;
      assert Not(f)(gone[i]);
    }
    AtMostOneWithKey(gone, RuleKey, id);
    assert gone != [] ==> deleted by {
      if gone != [] {
        assert gone[0] in t.rows && gone[0].id == id;
      }
    }
    if deleted {
      var r :| r in t.rows && r.id == id;
      assert r in gone;
    }
  }

  method RemoveExclusion(db: Database, id: int) returns (deleted: bool)
    modifies db`exclusions
    ensures var (d, t) := RemoveRule(RuleTable(old(db.exclusions), db.nextExclusionId), id);
      deleted == d && db.exclusions == t.rows
  {
    var (d, t) := RemoveRule(RuleTable(db.exclusions, db.nextExclusionId), id);
    deleted := d;
    db.exclusions := t.rows;
  }

  /** Removing the rule that was just added puts the table's rows back as
      they were. */
  lemma AddThenRemoveRestores(t: RuleTable, participant: Id, excluded: Id, reason: Option<string>)
    requires RuleTableValid(t)
    requires AddRule(t, participant, excluded, reason).result.Added?
    ensures var a := AddRule(t, participant, excluded, reason);
      RemoveRule(a.table, a.result.exclusionId) == (true, RuleTable(t.rows, t.nextId + 1))
  {
    var a := AddRule(t, participant, excluded, reason);
    var x := ExclusionRule(t.nextId, participant, excluded, reason);
    assert a.table.rows == t.rows + [x];
    FilterDropsNewRule(t.rows, x);
    assert x in a.table.rows;
  }

  /** Deleting by the id of a rule appended with a fresh id leaves the rows
      that were there before. */
  lemma FilterDropsNewRule(rows: seq<ExclusionRule>, x: ExclusionRule)
    requires AllBelow(rows, RuleKey, x.id)
    ensures Filter(rows + [x], RuleIdIsNot(x.id)) == rows
  {
    var f := RuleIdIsNot(x.id);
    FilterConcat(rows, [x], f);
    assert Filter([x], f) == [] by {
      assert [x][1..] == [];
    }
    forall r | r in rows ensures f(r) {
      var k :| 0 <= k < |rows| && rows[k] == r;
      assert RuleKey(rows[k]) < x.id;
    }
    FilterAll(rows, f);
  }

  // ---------------------------------------------------------------------
  // canPick

  /** `canPick(a, b)`: nobody picks themselves, and no rule forbids the pair. */
  predicate CanPick(rules: seq<ExclusionRule>, a: Id, b: Id)
  {
    a != b && !Excludes(rules, a, b)
  }

  /** After a successful `addExclusion(a, b)` the pair can no longer be
      picked, and removing that rule again makes it pickable; pairs other than
      (a, b) are not affected by either step. */
  lemma CanPickAfterAddAndRemove(t: RuleTable, a: Id, b: Id, reason: Option<string>, c: Id, d: Id)
    requires RuleTableValid(t)
    requires AddRule(t, a, b, reason).result.Added?
    ensures var add := AddRule(t, a, b, reason);
      && !CanPick(add.table.rows, a, b)
      && CanPick(RemoveRule(add.table, add.result.exclusionId).1.rows, a, b)
      && ((c, d) != (a, b) ==> CanPick(add.table.rows, c, d) == CanPick(t.rows, c, d))
  {
    AddRuleOutcome(t, a, b, reason);
    AddThenRemoveRestores(t, a, b, reason);
    var add := AddRule(t, a, b, reason);
    if (c, d) != (a, b) && Excludes(add.table.rows, c, d) {
      var r :| r in add.table.rows && r.participant == c && r.excluded == d;
      assert r in t.rows;
    }
  }

  // ---------------------------------------------------------------------
  // addFamilyGroupExclusions

  /** One rule the family-group helper managed to add. */
  datatype AddedRule = AddedRule(participant: Id, excluded: Id, exclusionId: Id)

  datatype GroupState = GroupState(added: seq<AddedRule>, table: RuleTable)

  datatype FamilyResult = GroupRejected(error: string) | GroupAdded(added: nat, exclusions: seq<AddedRule>)

  /** Where pair (ids[i], ids[k]) sits within row `i`: its column, less
      the skipped diagonal. */
  function RowCol(i: nat, k: nat): nat
    requires k != i
  {
    if k < i then k else k - 1
  }

  /** The column that position `c` of row `i` stands for. */
  function SkipDiagonal(i: nat, c: nat): nat
  {
    if c < i then c else c + 1
  }

  /** How many pairs of row `i` the inner loop has produced once it has
      passed columns 0..j-1. */
  function RowTaken(i: nat, j: nat): nat
  {
    if j <= i then j else j - 1
  }

  /** Row `i` of the nested loops: (ids[i], ids[k]) for every column
      k != i, in column order. */
  function RowPairs(ids: seq<Id>, i: nat): (r: seq<(Id, Id)>)
    requires i < |ids|
    ensures |r| == |ids| - 1
    ensures forall c :: 0 <= c < |r| ==> r[c] == (ids[i], ids[SkipDiagonal(i, c)])
  {
    seq(|ids| - 1, c requires 0 <= c < |ids| - 1 => (ids[i], ids[SkipDiagonal(i, c)]))
  }

  /** The first `i` rows of the nested loops. */
  function PairsBefore(ids: seq<Id>, i: nat): seq<(Id, Id)>
    requires i <= |ids|
  {
    if i == 0 then [] else PairsBefore(ids, i - 1) + RowPairs(ids, i - 1)
  }

  /** Every ordered pair of positions of a family group, in loop order. */
  function FamilyPairs(ids: seq<Id>): seq<(Id, Id)>
  {
    PairsBefore(ids, |ids|)
  }

  /** One `addExclusion` call of the loop, recording the rule if it was added. */
  function AddPairStep(s: GroupState, pair: (Id, Id), reason: Option<string>): GroupState
  {
    var a := AddRule(s.table, pair.0, pair.1, reason);
    GroupState(if a.result.Added? then s.added + [AddedRule(pair.0, pair.1, a.result.exclusionId)] else s.added,
               a.table)
  }

  /** The state after trying every pair in turn. */
  function AddPairs(t: RuleTable, pairs: seq<(Id, Id)>, reason: Option<string>): GroupState
    decreases |pairs|
  {
    if pairs == [] then GroupState([], t)
    else AddPairStep(AddPairs(t, pairs[..|pairs| - 1], reason), pairs[|pairs| - 1], reason)
  }

  lemma AddPairsSnoc(t: RuleTable, pairs: seq<(Id, Id)>, p: (Id, Id), reason: Option<string>)
    ensures AddPairs(t, pairs + [p], reason) == AddPairStep(AddPairs(t, pairs, reason), p, reason)
  {
    assert (pairs + [p])[..|pairs|] == pairs;
  }

  lemma {:induction false} PairsBeforeLength(ids: seq<Id>, m: nat)
    requires m <= |ids|
    ensures |PairsBefore(ids, m)| == m * (|ids| - 1)
    decreases m
  {
    if m > 0 {
      var n1 := |ids| - 1;
      PairsBeforeLength(ids, m - 1);
      assert |PairsBefore(ids, m)| == (m - 1) * n1 + n1;
      MulSucc(m - 1, n1);
    }
  }

  lemma MulSucc(a: int, b: int)
    ensures a * b + b == (a + 1) * b
  {
  }

  lemma PairsBeforeHas(ids: seq<Id>, m: nat)
    requires m <= |ids|
    ensures forall i, k :: 0 <= i < m && 0 <= k < |ids| && i != k ==> (ids[i], ids[k]) in PairsBefore(ids, m)
  {
    forall i, k | 0 <= i < m && 0 <= k < |ids| && i != k
      ensures (ids[i], ids[k]) in PairsBefore(ids, m)
    {
      var j := |PairsBefore(ids, i)| + RowCol(i, k);
      PairsBeforeAt(ids, m, i, k);
      assert PairsBefore(ids, m)[j] == (ids[i], ids[k]);
    }
  }

  /** Pair (ids[i], ids[k]) sits after the rows before row `i`, at its
      column, and later rows only append. */
  lemma {:induction false} PairsBeforeAt(ids: seq<Id>, m: nat, i: nat, k: nat)
    requires i < m <= |ids| && k < |ids| && k != i
    ensures |PairsBefore(ids, i)| + RowCol(i, k) < |PairsBefore(ids, m)|
    ensures PairsBefore(ids, m)[|PairsBefore(ids, i)| + RowCol(i, k)] == (ids[i], ids[k])
    decreases m
  {
    var j := |PairsBefore(ids, i)| + RowCol(i, k);
    var prev, row := PairsBefore(ids, m - 1), RowPairs(ids, m - 1);
    assert PairsBefore(ids, m) == prev + row;
    if i < m - 1 {
      PairsBeforeAt(ids, m - 1, i, k);
      assert (prev + row)[j] == prev[j];
    } else {
      assert (prev + row)[j] == row[RowCol(i, k)];
    }
  }

  lemma {:induction false} PairsBeforeOnly(ids: seq<Id>, m: nat)
    requires m <= |ids|
    ensures forall q :: q in PairsBefore(ids, m) ==>
      exists i, k :: 0 <= i < m && 0 <= k < |ids| && i != k && q == (ids[i], ids[k])
    decreases m
  {
    if m > 0 {
      PairsBeforeOnly(ids, m - 1);
      var prev, row := PairsBefore(ids, m - 1), RowPairs(ids, m - 1);
      assert PairsBefore(ids, m) == prev + row;
      forall q | q in PairsBefore(ids, m)
        ensures exists i, k :: 0 <= i < m && 0 <= k < |ids| && i != k && q == (ids[i], ids[k])
      {
        if q !in prev {
          var c :| 0 <= c < |row| && row[c] == q;
          assert q == (ids[m - 1], ids[SkipDiagonal(m - 1, c)]);
        }
      }
    }
  }

  /** A group of n ids produces the n(n-1) ordered pairs of distinct
      positions, and nothing else. */
  lemma FamilyPairsAreOrderedPairs(ids: seq<Id>)
    ensures |FamilyPairs(ids)| == |ids| * (|ids| - 1)
    ensures forall i, k :: 0 <= i < |ids| && 0 <= k < |ids| && i != k ==> (ids[i], ids[k]) in FamilyPairs(ids)
    ensures forall q :: q in FamilyPairs(ids) ==>
      exists i, k :: 0 <= i < |ids| && 0 <= k < |ids| && i != k && q == (ids[i], ids[k])
  {
    PairsBeforeLength(ids, |ids|);
    PairsBeforeHas(ids, |ids|);
    PairsBeforeOnly(ids, |ids|);
  }

  /** Trying a list of pairs keeps every earlier rule, adds one row per
      recorded success, records at most one success per pair, and leaves every
      non-self pair of the list excluded. */
  lemma {:induction false} AddPairsOutcome(t: RuleTable, pairs: seq<(Id, Id)>, reason: Option<string>)
    requires RuleTableValid(t)
    ensures var s := AddPairs(t, pairs, reason);
      && RuleTableValid(s.table)
      && |s.added| <= |pairs|
      && |s.table.rows| == |t.rows| + |s.added|
      && s.table.rows[..|t.rows|] == t.rows
      && (forall q :: q in pairs && q.0 != q.1 ==> Excludes(s.table.rows, q.0, q.1))
    decreases |pairs|
  {
    if pairs != [] {
      var init := pairs[..|pairs| - 1];
      var q := pairs[|pairs| - 1];
      AddPairsOutcome(t, init, reason);
      var prev := AddPairs(t, init, reason);
      AddRuleOutcome(prev.table, q.0, q.1, reason);
      var s := AddPairs(t, pairs, reason);
      assert s.table.rows[..|prev.table.rows|] == prev.table.rows;
      assert s.table.rows[..|t.rows|] == prev.table.rows[..|t.rows|];
      forall q' | q' in pairs && q'.0 != q'.1 ensures Excludes(s.table.rows, q'.0, q'.1) {
        if q' != q {
          var k :| 0 <= k < |pairs| && pairs[k] == q';
          assert init[k] == q';
          var r :| r in prev.table.rows && r.participant == q'.0 && r.excluded == q'.1;
          assert r in s.table.rows;
        }
      }
    }
  }

  /** After a family group of at least two ids, every two members with
      different ids exclude each other, at most n(n-1) rules were added, and
      the count reported is the number of rows added. */
  lemma FamilyGroupOutcome(t: RuleTable, ids: seq<Id>, reason: Option<string>)
    requires RuleTableValid(t)
    ensures var s := AddPairs(t, FamilyPairs(ids), reason);
      && RuleTableValid(s.table)
      && |s.added| <= |ids| * (|ids| - 1)
      && |s.table.rows| == |t.rows| + |s.added|
      && forall i, k :: 0 <= i < |ids| && 0 <= k < |ids| && ids[i] != ids[k] ==>
           Excludes(s.table.rows, ids[i], ids[k])
  {
    FamilyPairsAreOrderedPairs(ids);
    AddPairsOutcome(t, FamilyPairs(ids), reason);
  }

  /** The pairs the two loops have tried once the outer loop is at row `i`
      and the inner loop at column `j`. */
  ghost function Tried(ids: seq<Id>, i: nat, j: nat): seq<(Id, Id)>
    requires i < |ids| && j <= |ids|
  {
    PairsBefore(ids, i) + RowPairs(ids, i)[..RowTaken(i, j)]
  }

  lemma TriedAtRowStart(ids: seq<Id>, i: nat)
    requires i < |ids|
    ensures Tried(ids, i, 0) == PairsBefore(ids, i)
  {
    assert RowPairs(ids, i)[..0] == [];
  }

  lemma TriedAtRowEnd(ids: seq<Id>, i: nat)
    requires i < |ids|
    ensures Tried(ids, i, |ids|) == PairsBefore(ids, i + 1)
  {
    assert RowPairs(ids, i)[..RowTaken(i, |ids|)] == RowPairs(ids, i);
  }

  /** Off the diagonal the inner loop tries exactly (ids[i], ids[j]); on it,
      nothing. */
  lemma TriedStep(ids: seq<Id>, i: nat, j: nat)
    requires i < |ids| && j < |ids|
    ensures Tried(ids, i, j + 1) == if i != j then Tried(ids, i, j) + [(ids[i], ids[j])] else Tried(ids, i, j)
  {
    if i != j {
      var row := RowPairs(ids, i);
      var d := RowTaken(i, j);
      assert row[d] == (ids[i], ids[j]);
      assert row[..d + 1] == row[..d] + [row[d]];
    }
  }

  /** One pass of the inner loop: row `i` tried pair by pair. */
  method AddRowExclusions(db: Database, ghost t0: RuleTable, ids: seq<Id>, i: nat, reason: Option<string>,
                          added: seq<AddedRule>) returns (added': seq<AddedRule>)
    requires i < |ids|
    requires GroupState(added, RuleTable(db.exclusions, db.nextExclusionId)) == AddPairs(t0, PairsBefore(ids, i), reason)
    modifies db`exclusions, db`nextExclusionId
    ensures GroupState(added', RuleTable(db.exclusions, db.nextExclusionId)) == AddPairs(t0, PairsBefore(ids, i + 1), reason)
  {
    TriedAtRowStart(ids, i);
    added' := added;
    var j := 0;
    while j < |ids|
      invariant 0 <= j <= |ids|
      invariant GroupState(added', RuleTable(db.exclusions, db.nextExclusionId)) == AddPairs(t0, Tried(ids, i, j), reason)
    {
      added' := TryPair(db, t0, ids, i, j, reason, added');
      j := j + 1;
    }
    TriedAtRowEnd(ids, i);
  }

  /** One iteration of the inner loop: skip the diagonal, otherwise try the
      pair and record it when a row was added. */
  method TryPair(db: Database, ghost t0: RuleTable, ids: seq<Id>, i: nat, j: nat, reason: Option<string>,
                 added: seq<AddedRule>) returns (added': seq<AddedRule>)
    requires i < |ids| && j < |ids|
    requires GroupState(added, RuleTable(db.exclusions, db.nextExclusionId)) == AddPairs(t0, Tried(ids, i, j), reason)
    modifies db`exclusions, db`nextExclusionId
    ensures GroupState(added', RuleTable(db.exclusions, db.nextExclusionId)) == AddPairs(t0, Tried(ids, i, j + 1), reason)
  {
    TriedStep(ids, i, j);
    added' := added;
    if i != j {
      AddPairsSnoc(t0, Tried(ids, i, j), (ids[i], ids[j]), reason);
      var result := AddExclusion(db, ids[i], ids[j], reason);
      if result.Added? {
        added' := added + [AddedRule(ids[i], ids[j], result.exclusionId)];
      }
    }
  }

  method AddFamilyGroupExclusions(db: Database, ids: seq<Id>, reason: Option<string> := Some(FamilyReason))
    returns (r: FamilyResult)
    modifies db`exclusions, db`nextExclusionId
    ensures |ids| < 2 ==>
      r == GroupRejected(FamilyTooSmallError)
      && db.exclusions == old(db.exclusions) && db.nextExclusionId == old(db.nextExclusionId)
    ensures |ids| >= 2 ==>
      var s := AddPairs(RuleTable(old(db.exclusions), old(db.nextExclusionId)), FamilyPairs(ids), reason);
      r == GroupAdded(|s.added|, s.added) && RuleTable(db.exclusions, db.nextExclusionId) == s.table
  {
    if |ids| < 2 {
      return GroupRejected(FamilyTooSmallError);
    }
    ghost var t0 := RuleTable(db.exclusions, db.nextExclusionId);
    var added: seq<AddedRule> := [];
    var i := 0;
    while i < |ids|
      invariant 0 <= i <= |ids|
      invariant GroupState(added, RuleTable(db.exclusions, db.nextExclusionId))
        == AddPairs(t0, PairsBefore(ids, i), reason)
    {
      added := AddRowExclusions(db, t0, ids, i, reason, added);
      i := i + 1;
    }
    r := GroupAdded(|added|, added);
  }

  // ---------------------------------------------------------------------
  // validateGameIsPossible

  /** What `validateGameIsPossible` reports. */
  datatype GameCheck =
    | TooFewParticipants
    | NoValidPicks(participantId: Id, name: string)
    | Possible
    | PossibleWithWarning(exclusionPercentage: int)

  function IsStaticCandidate(rules: seq<ExclusionRule>, drawer: Id): Participant -> bool
  {
    (p: Participant) => p.id != drawer && !Excludes(rules, drawer, p.id)
  }

  /** Whom `drawer` could draw if nobody had drawn yet. */
  function StaticCandidates(ps: seq<Participant>, rules: seq<ExclusionRule>, drawer: Id): seq<Participant>
  {
    Filter(ps, IsStaticCandidate(rules, drawer))
  }

  /** The participant has nobody to draw even before any draw. */
  function Stranded(ps: seq<Participant>, rules: seq<ExclusionRule>): Participant -> bool
  {
    (p: Participant) => StaticCandidates(ps, rules, p.id) == []
  }

  /** The report for a participant table (in id order) and a rule table. */
  function GameCheckOf(ps: seq<Participant>, rules: seq<ExclusionRule>): GameCheck
  {
    if |ps| < 2 then TooFewParticipants
    else match IndexWhere(ps, Stranded(ps, rules))
      case Some(k) => NoValidPicks(ps[k].id, ps[k].firstName)
      case None =>
        var pairs := |ps| * (|ps| - 1);
        if 2 * |rules| > pairs then PossibleWithWarning(RoundedPercent(|rules|, pairs)) else Possible
  }

  /** With too few participants nothing else is looked at; otherwise the
      report names the first participant (in id order) without a static
      candidate, if there is one. */
  lemma GameCheckNamesStranded(ps: seq<Participant>, rules: seq<ExclusionRule>)
    ensures GameCheckOf(ps, rules) == TooFewParticipants <==> |ps| < 2
    ensures GameCheckOf(ps, rules).NoValidPicks? <==>
      |ps| >= 2 && exists p :: p in ps && StaticCandidates(ps, rules, p.id) == []
    ensures GameCheckOf(ps, rules).NoValidPicks? ==>
      exists k :: 0 <= k < |ps| && ps[k].id == GameCheckOf(ps, rules).participantId
        && ps[k].firstName == GameCheckOf(ps, rules).name
        && StaticCandidates(ps, rules, ps[k].id) == []
        && forall j :: 0 <= j < k ==> StaticCandidates(ps, rules, ps[j].id) != []
  {
    if |ps| >= 2 {
      var f := Stranded(ps, rules);
      match IndexWhere(ps, f)
      case Some(k) =>
        assert f(ps[k]);
      case None =>
        forall p | p in ps ensures StaticCandidates(ps, rules, p.id) != [] {
          var k :| 0 <= k < |ps| && ps[k] == p;
          assert !f(ps[k]);
        }
    }
  }

  /** The game is reported possible exactly when there are at least two
      participants and each has a static candidate; the warning comes exactly
      when more than half of the n(n-1) ordered pairs are excluded, and its
      percentage then lies between 50 and 100. */
  lemma GameCheckPossible(ps: seq<Participant>, rules: seq<ExclusionRule>)
    ensures (GameCheckOf(ps, rules) == Possible || GameCheckOf(ps, rules).PossibleWithWarning?) <==>
      |ps| >= 2 && forall p :: p in ps ==> StaticCandidates(ps, rules, p.id) != []
    ensures GameCheckOf(ps, rules).PossibleWithWarning? <==>
      |ps| >= 2 && (forall p :: p in ps ==> StaticCandidates(ps, rules, p.id) != [])
      && 2 * |rules| > |ps| * (|ps| - 1)
    ensures GameCheckOf(ps, rules).PossibleWithWarning? && |rules| <= |ps| * (|ps| - 1) ==>
      50 <= GameCheckOf(ps, rules).exclusionPercentage <= 100
  {
    GameCheckNamesStranded(ps, rules);
    if |ps| >= 2 && 2 * |rules| > |ps| * (|ps| - 1) && |rules| <= |ps| * (|ps| - 1) {
      RoundedPercentRange(|rules|, |ps| * (|ps| - 1));
    }
  }

  /** The static candidates do not look at who has drawn whom: two tables
      that differ only in assignment columns give the same report. */
  lemma GameCheckIgnoresAssignments(ps: seq<Participant>, qs: seq<Participant>, rules: seq<ExclusionRule>)
    requires |ps| == |qs|
    requires forall k :: 0 <= k < |ps| ==> ps[k].id == qs[k].id && ps[k].firstName == qs[k].firstName
    ensures GameCheckOf(ps, rules) == GameCheckOf(qs, rules)
  {
    forall drawer: Id ensures |StaticCandidates(ps, rules, drawer)| == |StaticCandidates(qs, rules, drawer)| {
      FilterSameLength(ps, qs, IsStaticCandidate(rules, drawer), IsStaticCandidate(rules, drawer));
    }
    var f, g := Stranded(ps, rules), Stranded(qs, rules);
    assert forall k :: 0 <= k < |ps| ==> f(ps[k]) == g(qs[k]);
    IndexWhereAgrees(ps, qs, f, g);
  }

  /** `validateGameIsPossible`: one pass over the participants in id order
      that stops at the first one without a static candidate. */
  method ValidateGameIsPossible(db: Database) returns (r: GameCheck)
    requires db.Valid()
    ensures r == GameCheckOf(db.participants, db.exclusions)
  {
    var ps := db.participants;
    if |ps| < 2 {
      return TooFewParticipants;
    }
    ghost var f := Stranded(ps, db.exclusions);
    var i := 0;
    while i < |ps|
      invariant 0 <= i <= |ps|
      invariant forall j :: 0 <= j < i ==> !f(ps[j])
    {
      var count := |StaticCandidates(ps, db.exclusions, ps[i].id)|;
      if count == 0 {
        assert f(ps[i]);
        return NoValidPicks(ps[i].id, ps[i].firstName);
      }
      i := i + 1;
    }
    var pairs := |ps| * (|ps| - 1);
    if 2 * |db.exclusions| > pairs {
      r := PossibleWithWarning(RoundedPercent(|db.exclusions|, pairs));
    } else {
      r := Possible;
    }
  }
}
