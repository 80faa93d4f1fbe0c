/** The `students` table, as main.py uses it: Student.py is not part of
    this model, so the record has exactly the attributes main.py reads. */
module Students {

  /** One student row; `studentId` is an identity column the database
      assigns, the other three come from `Student(lastName, firstName, email)`. */
  datatype Student = Student(studentId: int, lastName: string, firstName: string, eMail: string)

  /** The three values `add_student` asks for. */
  datatype StudentEntry = StudentEntry(lastName: string, firstName: string, eMail: string)

  /** The row `session.add(Student(lastName, firstName, email))` stores once the database gives it `id`. */
  function NewStudent(id: int, e: StudentEntry): (s: Student)
    ensures s.studentId == id
    ensures StudentEntry(s.lastName, s.firstName, s.eMail) == e
  {
    Student(id, e.lastName, e.firstName, e.eMail)
  }

  /** Two rows differ on the identity key, on the (lastName, firstName) pair
      and on the e-mail address: the keys `add_student` keeps unique. */
  predicate StudentKeysDiffer(a: Student, b: Student) {
    && a.studentId != b.studentId
    && (a.lastName != b.lastName || a.firstName != b.firstName)
    && a.eMail != b.eMail
  }
}
