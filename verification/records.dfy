/** The persisted record types of the compliance tracker and the payload a
    user submits. Every string is a `seq<char>`; timestamps are plain
    integers supplied by the caller. The auto-increment primary keys of both
    tables are not modelled: a row is identified by its position in the
    table, which is also the storage engine's scan order. */
module Records {
  import opened Wrappers

  /** A point in time, as supplied by the clock the caller reads. */
  type Timestamp = int

  /** The one framework tag every new assessment receives. */
  const Framework: string := "NIST"

  /** One control definition of the reference library (e.g. "AC-2"). */
  datatype ControlReference = ControlReference(
    identifier: string,
    name: string,
    controlText: string,
    discussion: Option<string>,
    related: Option<string>)

  /** One user self-evaluation of a control for one audit year. */
  datatype Assessment = Assessment(
    auditYear: int,
    framework: string,
    refId: string,
    score: int,
    implementationStatement: string,
    remediationPlan: Option<string>,
    category: string,
    lastUpdated: Timestamp)

  /** The body of a submission: every field of an assessment the user
      chooses. `category` is already defaulted (to "General") when the
      request omitted it. */
  datatype AssessmentCreate = AssessmentCreate(
    auditYear: int,
    refId: string,
    score: int,
    implementationStatement: string,
    remediationPlan: Option<string>,
    category: string)

  /** The natural key of the assessment store. */
  datatype Key = Key(refId: string, auditYear: int)

  function KeyOf(a: Assessment): Key {
    Key(a.refId, a.auditYear)
  }

  function SubmittedKey(d: AssessmentCreate): Key {
    Key(d.refId, d.auditYear)
  }

  type Library = seq<ControlReference>
  type Store = seq<Assessment>
}
