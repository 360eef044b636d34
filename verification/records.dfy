/** The records of lms.py: books, students and the entries of the action log. */
module Records {
  import Queues

  /**
   * A catalogue book.  The waitlist holds student ids in arrival order; a
   * student may appear in it more than once.
   */
  datatype Book = Book(serial: int, title: string, author: string, available: bool, waitlist: Queues.Queue<int>)

  /** A registered student; `borrowed` lists the serials held, in the order they were received. */
  datatype Student = Student(id: int, name: string, borrowed: seq<int>)

  /** One entry of the action log, carrying what its message names. */
  datatype Action =
    | RegisteredStudent(id: int, name: string)
    | AddedBook(serial: int, title: string, author: string)
    | BorrowedBook(studentId: int, studentName: string, serial: int, title: string)
    | Waitlisted(studentId: int, studentName: string, serial: int, title: string)
    | ReturnedBook(studentId: int, studentName: string, serial: int, title: string)
    | AutoBorrowed(studentId: int, studentName: string, serial: int, title: string)

  /** `Book(serial, title, author)`: available, nobody waiting. */
  function NewBook(serial: int, title: string, author: string): (b: Book)
    ensures b.available && Queues.Valid(b.waitlist) && Queues.Contents(b.waitlist) == []
  {
    Book(serial, title, author, true, Queues.Empty())
  }

  /** `Student(id, name)`: holding nothing. */
  function NewStudent(id: int, name: string): Student
  {
    Student(id, name, [])
  }
}
