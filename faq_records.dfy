/**
 * The records of the `faqs` table and the fixed sample list that seeding
 * inserts.
 */
module FaqRecords {

  datatype Option<T> = None | Some(value: T)

  /** One row of `faqs`: an AUTOINCREMENT id and three TEXT NOT NULL columns. */
  datatype FaqRow = FaqRow(id: int, question: string, answer: string, category: string)

  /** One (question, answer, category) triple of the sample list. */
  datatype SampleFaq = SampleFaq(question: string, answer: string, category: string)

  /** The sample list, in the order in which seeding inserts it. */
  const SAMPLE_FAQS: seq<SampleFaq> := [
    SampleFaq("What are the admission requirements?",
      "For undergraduate programs, you need:\n- Minimum 60% in 12th grade\n- Valid entrance exam score (JEE/SAT)\n- English proficiency test scores (IELTS/TOEFL)\n- Letter of recommendation\n- Statement of purpose",
      "Admissions"),
    SampleFaq("When is the application deadline?",
      "The application deadlines are:\n- Early Decision: November 15\n- Regular Decision: January 15\n- Transfer Students: March 1",
      "Admissions"),
    SampleFaq("How can I apply for admission?",
      "You can apply through:\n1. Online application portal at college-website.com/apply\n2. Common Application\n3. Submit required documents and pay application fee ($50)\n4. Track your application status online",
      "Admissions"),
    SampleFaq("What courses do you offer?",
      "We offer various undergraduate programs including:\n- Computer Science and Engineering\n- Electrical Engineering\n- Mechanical Engineering\n- Civil Engineering\n- Business Administration\n- Psychology\n- Liberal Arts",
      "Courses"),
    SampleFaq("What is the duration of courses?",
      "Course durations:\n- Bachelor's Programs: 4 years\n- Master's Programs: 2 years\n- PhD Programs: 3-5 years",
      "Courses"),
    SampleFaq("Are there any specialization options?",
      "Yes, we offer specializations in:\n- AI and Machine Learning\n- Data Science\n- Robotics\n- Digital Marketing\n- Finance\n- Environmental Engineering",
      "Courses"),
    SampleFaq("What is the fee structure?",
      "Annual fees for 2025-26:\n- Tuition: $35,000\n- Housing: $12,000\n- Meal Plan: $5,000\n- Books and Supplies: $2,000\n- Total: $54,000",
      "Fees"),
    SampleFaq("Is financial aid available?",
      "Yes, we offer various financial aid options:\n- Merit-based scholarships\n- Need-based grants\n- Work-study programs\n- Student loans\n- Athletic scholarships",
      "Fees"),
    SampleFaq("How can I apply for scholarships?",
      "To apply for scholarships:\n1. Submit FAFSA form\n2. Complete scholarship application\n3. Provide required documents\n4. Meet application deadlines\n5. Maintain required GPA",
      "Fees"),
    SampleFaq("What accommodation options are available?",
      "We offer:\n- On-campus dormitories\n- Shared apartments\n- Single rooms\n- Family housing\nAll accommodations include Wi-Fi, laundry facilities, and 24/7 security.",
      "Campus"),
    SampleFaq("What facilities are available on campus?",
      "Our campus features:\n- Modern libraries\n- Research laboratories\n- Sports complex\n- Student center\n- Health center\n- Cafeterias\n- 24/7 study spaces",
      "Campus"),
    SampleFaq("Are there any sports facilities?",
      "Yes, we have:\n- Olympic-size swimming pool\n- Indoor sports complex\n- Football field\n- Basketball courts\n- Tennis courts\n- Fitness center",
      "Campus"),
    SampleFaq("What career services do you provide?",
      "Our career services include:\n- Resume writing workshops\n- Mock interviews\n- Job fairs\n- Industry connections\n- Internship placements\n- Career counseling",
      "Career"),
    SampleFaq("Do you offer placement assistance?",
      "Yes, we have a dedicated placement cell that:\n- Arranges campus interviews\n- Provides company-specific training\n- Helps with interview preparation\n- Maintains industry connections\n- Tracks placement statistics",
      "Career"),
    SampleFaq("How can I contact the college?",
      "You can reach us through:\n- Email: info@college.edu\n- Phone: (555) 123-4567\n- Address: 123 College Street, City, State 12345\n- Website: www.college.edu\n- Social Media: @CollegeName",
      "Contact")
  ]

  const CATEGORIES: set<string> := {"Admissions", "Courses", "Fees", "Campus", "Career", "Contact"}

  /** All three text columns are non-empty. */
  predicate WellFormed(row: FaqRow) {
    row.question != "" && row.answer != "" && row.category != ""
  }

  /**
   * The rows one seeding run appends when the table's AUTOINCREMENT
   * counter stands at `lastId`: the samples in order, numbered from
   * `lastId + 1`.
   */
  function SeedRows(lastId: nat): seq<FaqRow> {
    seq(|SAMPLE_FAQS|, k requires 0 <= k < |SAMPLE_FAQS| =>
      FaqRow(lastId + 1 + k, SAMPLE_FAQS[k].question, SAMPLE_FAQS[k].answer, SAMPLE_FAQS[k].category))
  }

  /** Every sample has non-empty columns and one of the six category labels. */
  lemma SamplesWellFormed()
    ensures |SAMPLE_FAQS| == 15
    ensures forall k :: 0 <= k < |SAMPLE_FAQS| ==>
      SAMPLE_FAQS[k].question != "" && SAMPLE_FAQS[k].answer != "" && SAMPLE_FAQS[k].category in CATEGORIES
  {
  }

  /** The seeded rows are the samples in listed order, well formed, with consecutive ids above `lastId`. */
  lemma SeedRowsShape(lastId: nat)
    ensures |SeedRows(lastId)| == 15
    ensures forall k :: 0 <= k < 15 ==>
      SeedRows(lastId)[k].id == lastId + 1 + k &&
      SeedRows(lastId)[k].question == SAMPLE_FAQS[k].question &&
      SeedRows(lastId)[k].answer == SAMPLE_FAQS[k].answer &&
      SeedRows(lastId)[k].category == SAMPLE_FAQS[k].category &&
      WellFormed(SeedRows(lastId)[k])
  {
    SamplesWellFormed();
  }
}
