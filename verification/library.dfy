/**
 * The `Library` class of lms.py: a catalogue of books indexed three ways
 * (a search tree by serial, a hash table by title, a hash table by author),
 * a registry of students, and an action log.  Each operation is a pure
 * transition returning the next state and an outcome tag in place of the
 * message the class prints.
 */
module Lms {
  import opened Wrappers
  import Queues
  import Stacks
  import opened SearchTrees
  import HashTables
  import opened Records
  import TitleSort

  /** The runtime's string hash, a parameter of every operation that touches a hash table. */
  type Hash = string -> int

  /**
   * The tree stores each book record under its serial.  The indexes store
   * serials rather than the shared record: the title table maps a title to
   * one serial, the author table maps an author to the serials of their
   * books in the order they were added.
   */
  datatype Library = Library(
    books: Tree<Book>,
    titles: HashTables.HashTable<string, int>,
    authors: HashTables.HashTable<string, seq<int>>,
    students: map<int, Student>,
    log: Stacks.Stack<Action>)

  /** What each operation reports. */
  datatype Outcome =
    | StudentRegistered
    | AlreadyRegistered
    | BookAdded
    | SerialExists
    | StudentNotRegistered
    | BookNotFound
    | Borrowed
    | AddedToWaitlist
    | Returned
    | ReturnedAndAutoBorrowed(nextStudent: int)
    | NotBorrowedByStudent

  datatype Reply = Reply(next: Library, outcome: Outcome)

  /** Both hash tables keep their fixed number of buckets. */
  predicate WellFormed(lib: Library)
  {
    |lib.titles.buckets| == HashTables.Size && |lib.authors.buckets| == HashTables.Size
  }

  /** The catalogue by serial, as the search tree represents it. */
  ghost function Books(lib: Library): map<int, Book>
  {
    ToMap(lib.books)
  }

  /** The serials listed under an author; none when the author is unknown. */
  function AuthorSerials(hash: Hash, authors: HashTables.HashTable<string, seq<int>>, author: string): seq<int>
    requires |authors.buckets| == HashTables.Size
  {
    match HashTables.Get(hash, authors, author)
    case None => []
    case Some(serials) => serials
  }

  /** The first occurrence of `x` removed (`list.remove`). */
  function RemoveFirst(xs: seq<int>, x: int): (r: seq<int>)
    ensures x in xs ==> multiset(r) == multiset(xs) - multiset{x}
    ensures x in xs ==> exists i :: FirstCut(xs, x, i, r)
    ensures x !in xs ==> r == xs
  {
    if |xs| == 0 then []
    else if xs[0] == x then
      assert xs == [x] + xs[1..];
      assert FirstCut(xs, x, 0, xs[1..]);
      xs[1..]
    else
      assert xs == [xs[0]] + xs[1..];
      var rest := RemoveFirst(xs[1..], x);
      assert x in xs ==> exists i :: FirstCut(xs, x, i, [xs[0]] + rest) by {
        if x in xs {
          assert x in xs[1..];
          var k :| FirstCut(xs[1..], x, k, rest);
          ConsCut(xs, x, k, rest);
        }
      }
      [xs[0]] + rest
  }

  /** `xs[i]` is the first `x` of `xs`, and `r` is `xs` without it. */
  ghost predicate FirstCut(xs: seq<int>, x: int, i: int, r: seq<int>)
  {
    0 <= i < |xs| && xs[i] == x && x !in xs[..i] && r == xs[..i] + xs[i + 1..]
  }

  /** A first occurrence in the tail, one place further on, is the first occurrence in a list whose head differs. */
  lemma ConsCut(xs: seq<int>, x: int, k: int, rest: seq<int>)
    requires |xs| > 0 && xs[0] != x && FirstCut(xs[1..], x, k, rest)
    ensures FirstCut(xs, x, k + 1, [xs[0]] + rest)
  {
    var t := xs[1..];
    assert xs[..k + 1] == [xs[0]] + t[..k];
    assert xs[k + 2..] == t[k + 1..];
  }

  /** Removing `x` from a list whose first `x` follows `xs` leaves exactly what surrounds that `x`. */
  lemma RemoveFirstSplits(xs: seq<int>, x: int, ys: seq<int>)
    requires x !in xs
    ensures RemoveFirst(xs + [x] + ys, x) == xs + ys
  {
    var zs := xs + [x] + ys;
    assert zs[..|xs|] == xs && zs[|xs| + 1..] == ys;
    assert FirstCut(zs, x, |xs|, xs + ys);
    var i :| FirstCut(zs, x, i, RemoveFirst(zs, x));
    FirstCutUnique(zs, x, i, |xs|, RemoveFirst(zs, x), xs + ys);
  }

  /** A list has one first occurrence of `x`, so one way of cutting it out. */
  lemma FirstCutUnique(xs: seq<int>, x: int, i: int, j: int, r: seq<int>, r': seq<int>)
    requires FirstCut(xs, x, i, r) && FirstCut(xs, x, j, r')
    ensures i == j && r == r'
  {
  }

  /** `Library()`: nothing catalogued, nobody registered, nothing logged. */
  function Init(): (lib: Library)
    ensures WellFormed(lib)
    ensures Books(lib) == map[] && lib.students == map[]
    ensures Stacks.GetAll(lib.log) == []
  {
    Library(Leaf, HashTables.New(), HashTables.New(), map[], Stacks.Empty())
  }

  /** `register_student`: a duplicate id changes nothing; otherwise the student is added holding nothing and one entry is logged. */
  function RegisterStudent(lib: Library, id: int, name: string): (r: Reply)
    ensures id in lib.students ==> r == Reply(lib, AlreadyRegistered)
    ensures id !in lib.students ==>
      && r.outcome == StudentRegistered
      && r.next.students.Keys == lib.students.Keys + {id}
      && r.next.students[id] == NewStudent(id, name)
      && (forall j :: j in lib.students ==> r.next.students[j] == lib.students[j])
      && r.next.books == lib.books && r.next.titles == lib.titles && r.next.authors == lib.authors
      && Stacks.GetAll(r.next.log) == [RegisteredStudent(id, name)] + Stacks.GetAll(lib.log)
  {
    if id in lib.students then Reply(lib, AlreadyRegistered)
    else
      Stacks.GetAllPush(lib.log, RegisteredStudent(id, name));
      Reply(lib.(students := lib.students[id := NewStudent(id, name)],
                 log := Stacks.Push(lib.log, RegisteredStudent(id, name))),
            StudentRegistered)
  }

  /**
   * `add_book`: an existing serial changes nothing.  Otherwise the new,
   * available book goes into the tree, the title table (overwriting the
   * serial of an earlier book with the same title) and at the end of its
   * author's list, and one entry is logged.
   */
  function AddBook(hash: Hash, lib: Library, serial: int, title: string, author: string): (r: Reply)
    requires WellFormed(lib)
    ensures WellFormed(r.next)
    ensures Search(lib.books, serial).Some? ==> r == Reply(lib, SerialExists)
    ensures Search(lib.books, serial).None? ==>
      && r.outcome == BookAdded
      && (IsBST(lib.books) ==> IsBST(r.next.books) && Books(r.next) == Books(lib)[serial := NewBook(serial, title, author)])
      && HashTables.Get(hash, r.next.titles, title) == Some(serial)
      && (forall t :: t != title ==> HashTables.Get(hash, r.next.titles, t) == HashTables.Get(hash, lib.titles, t))
      && AuthorSerials(hash, r.next.authors, author) == AuthorSerials(hash, lib.authors, author) + [serial]
      && (forall a :: a != author ==> AuthorSerials(hash, r.next.authors, a) == AuthorSerials(hash, lib.authors, a))
      && r.next.students == lib.students
      && Stacks.GetAll(r.next.log) == [AddedBook(serial, title, author)] + Stacks.GetAll(lib.log)
  {
    if Search(lib.books, serial).Some? then Reply(lib, SerialExists)
    else
      var book := NewBook(serial, title, author);
      var titles := HashTables.Insert(hash, lib.titles, title, serial);
      var authors := HashTables.Insert(hash, lib.authors, author, AuthorSerials(hash, lib.authors, author) + [serial]);
      Stacks.GetAllPush(lib.log, AddedBook(serial, title, author));
      Reply(Library(Insert(lib.books, serial, book), titles, authors, lib.students,
                    Stacks.Push(lib.log, AddedBook(serial, title, author))),
            BookAdded)
  }

  /**
   * `borrow_book`: an unknown student or serial changes nothing.  An
   * available book becomes unavailable and is appended to the student's
   * holdings; an unavailable book gets the student appended to its waitlist,
   * whoever holds it.  Either way one entry is logged.
   */
  function BorrowBook(lib: Library, id: int, serial: int): (r: Reply)
    ensures id !in lib.students ==> r == Reply(lib, StudentNotRegistered)
    ensures id in lib.students && Search(lib.books, serial).None? ==> r == Reply(lib, BookNotFound)
    ensures id in lib.students && Search(lib.books, serial).Some? ==>
      var book := Search(lib.books, serial).value;
      var student := lib.students[id];
      && r.next.students.Keys == lib.students.Keys
      && (forall j :: j in lib.students && j != id ==> r.next.students[j] == lib.students[j])
      && r.next.titles == lib.titles && r.next.authors == lib.authors
      && (IsBST(lib.books) ==> IsBST(r.next.books))
      && (book.available ==>
            && r.outcome == Borrowed
            && (IsBST(lib.books) ==> Books(r.next) == Books(lib)[serial := book.(available := false)])
            && r.next.students[id] == student.(borrowed := student.borrowed + [serial])
            && Stacks.GetAll(r.next.log) == [BorrowedBook(id, student.name, serial, book.title)] + Stacks.GetAll(lib.log))
      && (!book.available ==>
            && r.outcome == AddedToWaitlist
            && (IsBST(lib.books) ==> Books(r.next) == Books(lib)[serial := book.(waitlist := Queues.Enqueue(book.waitlist, id))])
            && r.next.students[id] == student
            && Stacks.GetAll(r.next.log) == [Waitlisted(id, student.name, serial, book.title)] + Stacks.GetAll(lib.log))
  {
    if id !in lib.students then Reply(lib, StudentNotRegistered)
    else
      var student := lib.students[id];
      match Search(lib.books, serial)
      case None => Reply(lib, BookNotFound)
      case Some(book) =>
        if book.available then
          var entry := BorrowedBook(id, student.name, serial, book.title);
          Stacks.GetAllPush(lib.log, entry);
          Reply(lib.(books := Insert(lib.books, serial, book.(available := false)),
                     students := lib.students[id := student.(borrowed := student.borrowed + [serial])],
                     log := Stacks.Push(lib.log, entry)),
                Borrowed)
        else
          var entry := Waitlisted(id, student.name, serial, book.title);
          Stacks.GetAllPush(lib.log, entry);
          Reply(lib.(books := Insert(lib.books, serial, book.(waitlist := Queues.Enqueue(book.waitlist, id))),
                     log := Stacks.Push(lib.log, entry)),
                AddedToWaitlist)
  }

  /**
   * `return_book`: an unknown student or serial, or a book the student does
   * not hold, changes nothing.  Otherwise the book leaves the student's
   * holdings and one entry is logged; if students are waiting, the first
   * one is dequeued and handed the book, which stays unavailable, and a
   * second entry is logged; if nobody waits, the book becomes available.
   */
  function ReturnBook(lib: Library, id: int, serial: int): (r: Reply)
    ensures id !in lib.students ==> r == Reply(lib, StudentNotRegistered)
    ensures id in lib.students && Search(lib.books, serial).None? ==> r == Reply(lib, BookNotFound)
    ensures id in lib.students && Search(lib.books, serial).Some? && serial !in lib.students[id].borrowed ==>
      r == Reply(lib, NotBorrowedByStudent)
    ensures id in lib.students && Search(lib.books, serial).Some? && serial in lib.students[id].borrowed ==>
      var book := Search(lib.books, serial).value;
      var student := lib.students[id];
      var waiting := Queues.Contents(book.waitlist);
      var returned := ReturnedBook(id, student.name, serial, book.title);
      && r.next.students.Keys == lib.students.Keys
      && r.next.titles == lib.titles && r.next.authors == lib.authors
      && (IsBST(lib.books) ==> IsBST(r.next.books))
      && (waiting == [] ==>
            && r.outcome == Returned
            && (IsBST(lib.books) ==> Books(r.next) == Books(lib)[serial := book.(available := true)])
            && r.next.students == lib.students[id := student.(borrowed := RemoveFirst(student.borrowed, serial))]
            && Stacks.GetAll(r.next.log) == [returned] + Stacks.GetAll(lib.log))
      && (waiting != [] && waiting[0] in lib.students ==>
            var nextId := waiting[0];
            var after := lib.students[id := student.(borrowed := RemoveFirst(student.borrowed, serial))];
            && r.outcome == ReturnedAndAutoBorrowed(nextId)
            && (IsBST(lib.books) ==>
                  Books(r.next) == Books(lib)[serial := book.(available := false, waitlist := Queues.Dequeue(book.waitlist).1)])
            && r.next.students == after[nextId := after[nextId].(borrowed := after[nextId].borrowed + [serial])]
            && Stacks.GetAll(r.next.log) ==
                 [AutoBorrowed(nextId, after[nextId].name, serial, book.title), returned] + Stacks.GetAll(lib.log))
  {
    if id !in lib.students then Reply(lib, StudentNotRegistered)
    else
      var student := lib.students[id];
      match Search(lib.books, serial)
      case None => Reply(lib, BookNotFound)
      case Some(book) =>
        if serial !in student.borrowed then Reply(lib, NotBorrowedByStudent)
        else
          var returned := ReturnedBook(id, student.name, serial, book.title);
          var students := lib.students[id := student.(borrowed := RemoveFirst(student.borrowed, serial))];
          var log := Stacks.Push(lib.log, returned);
          Stacks.GetAllPush(lib.log, returned);
          if Queues.IsEmpty(book.waitlist) then
            Reply(lib.(books := Insert(lib.books, serial, book.(available := true)), students := students, log := log),
                  Returned)
          else
            var (head, rest) := Queues.Dequeue(book.waitlist);
            var nextId := head.value;
            if nextId in students then
              var nextStudent := students[nextId];
              var auto := AutoBorrowed(nextId, nextStudent.name, serial, book.title);
              Stacks.GetAllPush(log, auto);
              Reply(Library(Insert(lib.books, serial, book.(available := false, waitlist := rest)),
                            lib.titles, lib.authors,
                            students[nextId := nextStudent.(borrowed := nextStudent.borrowed + [serial])],
                            Stacks.Push(log, auto)),
                    ReturnedAndAutoBorrowed(nextId))
            else
              // Waitlists hold registered students only (see LmsInvariants.Valid); this branch is never taken from a valid state.
              Reply(lib.(books := Insert(lib.books, serial, book.(available := true, waitlist := rest)), students := students, log := log),
                    Returned)
  }

  /** `search_book_by_serial`: the book with that serial, or None. */
  function SearchBySerial(lib: Library, serial: int): (r: Option<Book>)
    ensures IsBST(lib.books) ==> (r.Some? <==> serial in Books(lib))
    ensures IsBST(lib.books) && r.Some? ==> r.value == Books(lib)[serial]
  {
    Search(lib.books, serial)
  }

  /** `search_book_by_title`: the book the title table points at, or None. */
  function SearchByTitle(hash: Hash, lib: Library, title: string): Option<Book>
    requires WellFormed(lib)
  {
    match HashTables.Get(hash, lib.titles, title)
    case None => None
    case Some(serial) => Search(lib.books, serial)
  }

  /** The books of a list of serials, in list order; serials not in the tree are skipped. */
  function Resolve(t: Tree<Book>, serials: seq<int>): (r: seq<Book>)
    ensures |r| <= |serials|
    ensures forall b :: b in r ==> exists i :: 0 <= i < |serials| && Search(t, serials[i]) == Some(b)
  {
    if |serials| == 0 then []
    else
      var rest := Resolve(t, serials[1..]);
      var r := match Search(t, serials[0]) case None => rest case Some(b) => [b] + rest;
      assert forall b :: b in rest ==> exists i :: 0 <= i < |serials| && Search(t, serials[i]) == Some(b) by {
        forall b | b in rest ensures exists i :: 0 <= i < |serials| && Search(t, serials[i]) == Some(b) {
          var i :| 0 <= i < |serials[1..]| && Search(t, serials[1..][i]) == Some(b);
          assert serials[1..][i] == serials[i + 1];
        }
      }
      r
  }

  /** `search_books_by_author`: the author's books in the order they were added; empty reports "no books found". */
  function SearchByAuthor(hash: Hash, lib: Library, author: string): seq<Book>
    requires WellFormed(lib)
  {
    Resolve(lib.books, AuthorSerials(hash, lib.authors, author))
  }

  /** `_inorder_books`: every book, by ascending serial. */
  function InOrderBooks(lib: Library): seq<Book>
  {
    InOrder(lib.books)
  }

  /** `get_sorted_books()` with its default `by='title'`: the in-order list, stably sorted by title. */
  function SortedBooks(lib: Library): seq<Book>
  {
    TitleSort.SortByTitle(InOrderBooks(lib))
  }

  /** `show_recent_actions`: the log, newest first. */
  function RecentActions(lib: Library): (r: seq<Action>)
    ensures |r| == |lib.log.items|
    ensures forall i :: 0 <= i < |r| ==> r[i] == lib.log.items[|lib.log.items| - 1 - i]
  {
    Stacks.GetAll(lib.log)
  }
}
