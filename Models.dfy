/**
 * The records the evaluation reads and writes: an assignment's evaluation
 * settings, and a submission whose mark and feedback are filled in after
 * it is created and may later be overridden by the teacher.
 */
module Models {
  import opened Wrappers

  /**
   * The fields of an assignment the evaluation reads: the stored name of the
   * reference document, the maximum mark, the minimum word count and the
   * required keywords (possibly empty).
   */
  datatype Assignment = Assignment(file: string, maxMarks: real, minWords: nat, requiredKeywords: seq<string>)

  /**
   * A submission. Its id, its student's name and the stored name of its
   * file ("" when none is attached) are fixed at creation; its mark
   * (`None` until evaluated) and feedback are updated in place.
   */
  class Submission {
    const id: nat
    const student: string
    const submittedFile: string
    var marks: Option<real>
    var feedback: string

    constructor (id: nat, student: string, submittedFile: string)
      ensures this.id == id && this.student == student && this.submittedFile == submittedFile
      ensures marks == None && feedback == ""
    {
      this.id := id;
      this.student := student;
      this.submittedFile := submittedFile;
      marks := None;
      feedback := "";
    }
  }
}
