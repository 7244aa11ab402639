/**
 * Replies on the freshly seeded sample table for a few concrete queries.
 */
module SeedChecks {
  import opened SqlText
  import opened FaqRecords
  import opened FaqLookup
  import opened FaqStore

  const FIRST_QUESTION_LOWER: string := "what are the admission requirements?"

  lemma FirstQuestionLowered()
    ensures Lower(SeedRows(0)[0].question) == FIRST_QUESTION_LOWER
  {
  }

  /** The first seeded row contains `term` (wildcard-free, lower case) as found at position `at` of its question. */
  lemma FirstRowContains(term: string, at: nat)
    requires at + |term| <= |FIRST_QUESTION_LOWER|
    requires FIRST_QUESTION_LOWER[at..at + |term|] == term
    requires Lower(term) == term
    ensures IsFirstTextMatch(SeedRows(0), term, 0)
  {
    var t := FIRST_QUESTION_LOWER;
    FirstQuestionLowered();
    assert StartsWith(t[at..], term) by {
      assert t[at..][..|term|] == t[at..at + |term|];
    }
  }

  lemma AdmissionRequirementsAt13()
    ensures FIRST_QUESTION_LOWER[13..35] == "admission requirements"
  {
    var w := "admission requirements";
    forall k | 0 <= k < |w| ensures FIRST_QUESTION_LOWER[13..35][k] == w[k] {
      assert FIRST_QUESTION_LOWER[13..35][k] == FIRST_QUESTION_LOWER[13 + k];
    }
  }

  lemma AdmissionAt13()
    ensures FIRST_QUESTION_LOWER[13..22] == "admission"
  {
    var w := "admission";
    forall k | 0 <= k < |w| ensures FIRST_QUESTION_LOWER[13..22][k] == w[k] {
      assert FIRST_QUESTION_LOWER[13..22][k] == FIRST_QUESTION_LOWER[13 + k];
    }
  }

  /** "admission requirements" finds the admissions-requirements answer, the first row. */
  lemma AdmissionRequirementsQuery()
    ensures GetResponse(Some(SeedRows(0)), "admission requirements") == SAMPLE_FAQS[0].answer
  {
    var q := "admission requirements";
    assert NoWildcards(q) && Lower(q) == q;
    AdmissionRequirementsAt13();
    FirstRowContains(q, 13);
    ResponseBySubstring(SeedRows(0), q);
  }

  lemma AdmissionCases()
    ensures Upper("admission") == "ADMISSION" && Lower("admission") == "admission"
  {
  }

  /** "ADMISSION" and "admission" get the same reply, the first row's answer. */
  lemma AdmissionAnyCase()
    ensures GetResponse(Some(SeedRows(0)), "ADMISSION") == GetResponse(Some(SeedRows(0)), "admission")
    ensures GetResponse(Some(SeedRows(0)), "admission") == SAMPLE_FAQS[0].answer
  {
    var q := "admission";
    AdmissionCases();
    UpperCaseQuerySameResponse(Some(SeedRows(0)), q);
    assert NoWildcards(q);
    AdmissionAt13();
    FirstRowContains(q, 13);
    ResponseBySubstring(SeedRows(0), q);
  }

  /**
   * A database file that does not exist yet, seeded once by `init_db`,
   * holds exactly the sample rows numbered from 1, and answers the queries
   * above as they state.
   */
  method SeedFreshDatabase() returns (db: FaqDatabase)
    ensures fresh(db) && db.Valid() && db.Table() == Some(SeedRows(0))
    ensures GetResponse(db.Table(), "admission requirements") == SAMPLE_FAQS[0].answer
    ensures GetResponse(db.Table(), "ADMISSION") == GetResponse(db.Table(), "admission") == SAMPLE_FAQS[0].answer
  {
    db := new FaqDatabase();
    db.InitDb();
    assert [] + SeedRows(0) == SeedRows(0);
    AdmissionRequirementsQuery();
    AdmissionAnyCase();
  }
}
