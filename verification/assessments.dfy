/** The assessment store and its one mutation, the upsert behind
    `POST /submit-assessment/`: look the natural key (ref_id, audit_year)
    up, overwrite the found record's mutable fields, or append a new record
    when there is none. */
module Assessments {
  import opened Wrappers
  import opened Records
  import opened Query

  /** The filter of the upsert's and the analysis's lookup: exact equality
      on both parts of the key. */
  function WithKey(k: Key): Assessment -> bool {
    a => KeyOf(a) == k
  }

  /** The store invariant the application keeps: at most one record per key. */
  ghost predicate UniqueKeys(s: Store) {
    forall i, j :: 0 <= i < j < |s| ==> KeyOf(s[i]) != KeyOf(s[j])
  }

  ghost predicate HasKey(s: Store, k: Key) {
    exists i :: 0 <= i < |s| && KeyOf(s[i]) == k
  }

  /** `a'` is `a` after an update with `d` at time `now`: score, statement
      and remediation plan are the submitted ones (a plan left out of the
      submission clears the stored one), the timestamp is refreshed, and
      category, framework, year and control are kept. */
  ghost predicate Overwritten(a: Assessment, a': Assessment, d: AssessmentCreate, now: Timestamp) {
    && a'.score == d.score
    && a'.implementationStatement == d.implementationStatement
    && a'.remediationPlan == d.remediationPlan
    && a'.lastUpdated == now
    && a'.category == a.category
    && a'.framework == a.framework
    && a'.auditYear == a.auditYear
    && a'.refId == a.refId
  }

  /** `a` is the record created from `d` at time `now`: every submitted
      field, the fixed framework tag and the creation time. */
  ghost predicate CreatedFrom(a: Assessment, d: AssessmentCreate, now: Timestamp) {
    && a.auditYear == d.auditYear
    && a.refId == d.refId
    && a.score == d.score
    && a.implementationStatement == d.implementationStatement
    && a.remediationPlan == d.remediationPlan
    && a.category == d.category
    && a.framework == Framework
    && a.lastUpdated == now
  }

  function Update(a: Assessment, d: AssessmentCreate, now: Timestamp): Assessment {
    a.(score := d.score, implementationStatement := d.implementationStatement,
       remediationPlan := d.remediationPlan, lastUpdated := now)
  }

  function Create(d: AssessmentCreate, now: Timestamp): Assessment {
    Assessment(d.auditYear, Framework, d.refId, d.score, d.implementationStatement,
               d.remediationPlan, d.category, now)
  }

  /** The upsert. The acknowledgement it answers with is always the same
      success status and is not modelled. */
  function CreateAssessment(s: Store, d: AssessmentCreate, now: Timestamp): (s': Store)
    // an existing key: the first record with it is overwritten in place,
    // and nothing else changes
    ensures HasKey(s, SubmittedKey(d)) ==> |s'| == |s|
    ensures forall i {:trigger IsFirst(s, WithKey(SubmittedKey(d)), i)} ::
              IsFirst(s, WithKey(SubmittedKey(d)), i) ==>
                && Overwritten(s[i], s'[i], d, now)
                && forall j :: 0 <= j < |s| && j != i ==> s'[j] == s[j]
    // a new key: one record carrying the submission is appended
    ensures !HasKey(s, SubmittedKey(d)) ==>
              && |s'| == |s| + 1
              && s'[..|s|] == s
              && CreatedFrom(s'[|s|], d, now)
  {
    match FirstIndex(s, WithKey(SubmittedKey(d)))
    case Some(i) => s[i := Update(s[i], d, now)]
    case None => s + [Create(d, now)]
  }

  /** Exactly one record of `s` has key `k`. */
  ghost predicate ExactlyOne(s: Store, k: Key) {
    exists i :: 0 <= i < |s| && KeyOf(s[i]) == k &&
      forall j :: 0 <= j < |s| && j != i ==> KeyOf(s[j]) != k
  }

  /** After an upsert the store holds the keys it held before plus the
      submitted one, and no others. */
  lemma UpsertKeys(s: Store, d: AssessmentCreate, now: Timestamp, k: Key)
    ensures HasKey(CreateAssessment(s, d, now), k) <==> HasKey(s, k) || k == SubmittedKey(d)
  {
  }

  /** An upsert leaves the key of every existing record as it was, and
      adds a record only for a key the store did not hold. */
  lemma UpsertKeyColumn(s: Store, d: AssessmentCreate, now: Timestamp)
    ensures var s' := CreateAssessment(s, d, now);
            && (HasKey(s, SubmittedKey(d)) ==> |s'| == |s|)
            && (!HasKey(s, SubmittedKey(d)) ==> |s'| == |s| + 1 && KeyOf(s'[|s|]) == SubmittedKey(d))
            && forall j :: 0 <= j < |s| ==> KeyOf(s'[j]) == KeyOf(s[j])
  {
    var s' := CreateAssessment(s, d, now);
    match FirstIndex(s, WithKey(SubmittedKey(d)))
    case Some(i) =>
      forall j | 0 <= j < |s| ensures KeyOf(s'[j]) == KeyOf(s[j]) {
        if j != i {
          assert s'[j] == s[j];
        }
      }
    case None =>
      forall j | 0 <= j < |s| ensures KeyOf(s'[j]) == KeyOf(s[j]) {
        assert s'[..|s|][j] == s[j];
      }
  }

  /** The upsert keeps the store invariant: at most one record per key. */
  lemma UpsertKeepsUniqueKeys(s: Store, d: AssessmentCreate, now: Timestamp)
    requires UniqueKeys(s)
    ensures UniqueKeys(CreateAssessment(s, d, now))
  {
    var s' := CreateAssessment(s, d, now);
    UpsertKeyColumn(s, d, now);
    forall a, b | 0 <= a < b < |s'| ensures KeyOf(s'[a]) != KeyOf(s'[b]) {
      if b < |s| {
        assert KeyOf(s[a]) != KeyOf(s[b]);
      } else {
        assert !HasKey(s, SubmittedKey(d));
        assert KeyOf(s[a]) != SubmittedKey(d);
      }
    }
  }

  /** After the upsert exactly one record carries the submitted key. */
  lemma UpsertLeavesExactlyOne(s: Store, d: AssessmentCreate, now: Timestamp)
    requires UniqueKeys(s)
    ensures ExactlyOne(CreateAssessment(s, d, now), SubmittedKey(d))
  {
    UpsertKeyColumn(s, d, now);
    OneKeyAdded(s, CreateAssessment(s, d, now), SubmittedKey(d));
  }

  /** A store whose key column extends a duplicate-free one, by the key `k`
      exactly when `k` was missing, holds `k` exactly once. */
  lemma OneKeyAdded(s: Store, s': Store, k: Key)
    requires UniqueKeys(s)
    requires HasKey(s, k) ==> |s'| == |s|
    requires !HasKey(s, k) ==> |s'| == |s| + 1 && KeyOf(s'[|s|]) == k
    requires forall j :: 0 <= j < |s| ==> KeyOf(s'[j]) == KeyOf(s[j])
    ensures ExactlyOne(s', k)
  {
    if HasKey(s, k) {
      var i :| 0 <= i < |s| && KeyOf(s[i]) == k;
      assert KeyOf(s'[i]) == k;
      forall j | 0 <= j < |s'| && j != i ensures KeyOf(s'[j]) != k {
        if j < i {
          assert KeyOf(s[j]) != KeyOf(s[i]);
        } else {
          assert KeyOf(s[i]) != KeyOf(s[j]);
        }
      }
    } else {
      forall j | 0 <= j < |s'| && j != |s| ensures KeyOf(s'[j]) != k {
        assert KeyOf(s'[j]) == KeyOf(s[j]);
      }
      assert KeyOf(s'[|s|]) == k;
    }
  }

  /** Submitting the same payload twice at the same time leaves the store
      as submitting it once. */
  lemma UpsertIdempotent(s: Store, d: AssessmentCreate, now: Timestamp)
    ensures CreateAssessment(CreateAssessment(s, d, now), d, now) == CreateAssessment(s, d, now)
  {
  }

  /** Two submissions for one control that differ in the audit year leave
      two distinct records, one per year. */
  lemma YearsAreSeparateRecords(s: Store, d: AssessmentCreate, year: int, t1: Timestamp, t2: Timestamp)
    requires year != d.auditYear
    ensures var s' := CreateAssessment(CreateAssessment(s, d, t1), d.(auditYear := year), t2);
            exists i, j :: 0 <= i < |s'| && 0 <= j < |s'| && i != j &&
              KeyOf(s'[i]) == Key(d.refId, d.auditYear) && KeyOf(s'[j]) == Key(d.refId, year)
  {
    var s1 := CreateAssessment(s, d, t1);
    var s' := CreateAssessment(s1, d.(auditYear := year), t2);
    UpsertKeys(s, d, t1, SubmittedKey(d));
    UpsertKeys(s1, d.(auditYear := year), t2, SubmittedKey(d));
    UpsertKeys(s1, d.(auditYear := year), t2, SubmittedKey(d.(auditYear := year)));
    var i :| 0 <= i < |s'| && KeyOf(s'[i]) == Key(d.refId, d.auditYear);
    var j :| 0 <= j < |s'| && KeyOf(s'[j]) == Key(d.refId, year);
  }

  /** Resubmitting for a key the store already holds: the store does not
      grow, and its one record for that key reflects the later submission. */
  lemma LastWriteWins(s: Store, d1: AssessmentCreate, d2: AssessmentCreate, t1: Timestamp, t2: Timestamp)
    requires UniqueKeys(s)
    requires SubmittedKey(d2) == SubmittedKey(d1)
    ensures var s1 := CreateAssessment(s, d1, t1);
            var s2 := CreateAssessment(s1, d2, t2);
            && |s2| == |s1|
            && exists i :: 0 <= i < |s2| && KeyOf(s2[i]) == SubmittedKey(d1)
                 && s2[i].score == d2.score
                 && s2[i].implementationStatement == d2.implementationStatement
                 && s2[i].lastUpdated == t2
                 && forall j :: 0 <= j < |s2| && j != i ==> KeyOf(s2[j]) != SubmittedKey(d1)
  {
    var k := SubmittedKey(d1);
    var s1 := CreateAssessment(s, d1, t1);
    var s2 := CreateAssessment(s1, d2, t2);
    UpsertKeepsUniqueKeys(s, d1, t1);
    UpsertLeavesExactlyOne(s1, d2, t2);
    var i := FirstIndex(s1, WithKey(k)).value;
    assert Overwritten(s1[i], s2[i], d2, t2);
    assert KeyOf(s2[i]) == k;
    var w :| 0 <= w < |s2| && KeyOf(s2[w]) == k &&
      forall j :: 0 <= j < |s2| && j != w ==> KeyOf(s2[j]) != k;
    assert w == i;
  }
}
