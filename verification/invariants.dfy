/**
 * The consistency the `Library` class keeps between its indexes, its
 * students and its books, and the proofs that every operation keeps it.
 */
module LmsInvariants {
  import opened Wrappers
  import Queues
  import Stacks
  import opened SearchTrees
  import HashTables
  import opened Records
  import opened Lms

  /** No serial occurs twice. */
  ghost predicate NoDup(xs: seq<int>)
  {
    forall x :: multiset(xs)[x] <= 1
  }

  /** Every book sits under its own serial. */
  ghost predicate SerialsMatch(books: map<int, Book>)
  {
    forall s :: s in books ==> books[s].serial == s
  }

  /** The title table points only at catalogued books of that title, and every book's title is in it. */
  ghost predicate TitlesIndexed(hash: Hash, titles: HashTables.HashTable<string, int>, books: map<int, Book>)
    requires |titles.buckets| == HashTables.Size
  {
    && (forall t :: HashTables.Get(hash, titles, t).Some? ==>
          HashTables.Get(hash, titles, t).value in books && books[HashTables.Get(hash, titles, t).value].title == t)
    && (forall s :: s in books ==> HashTables.Get(hash, titles, books[s].title).Some?)
  }

  /** Each author's list holds exactly the serials of that author's books, once each. */
  ghost predicate AuthorsIndexed(hash: Hash, authors: HashTables.HashTable<string, seq<int>>, books: map<int, Book>)
    requires |authors.buckets| == HashTables.Size
  {
    && (forall a, i :: 0 <= i < |AuthorSerials(hash, authors, a)| ==>
          AuthorSerials(hash, authors, a)[i] in books && books[AuthorSerials(hash, authors, a)[i]].author == a)
    && (forall a :: NoDup(AuthorSerials(hash, authors, a)))
    && (forall s :: s in books ==> s in AuthorSerials(hash, authors, books[s].author))
  }

  /** Students sit under their own id, hold catalogued books only, and never hold one twice. */
  ghost predicate StudentsOk(books: map<int, Book>, students: map<int, Student>)
  {
    && (forall id :: id in students ==> students[id].id == id && NoDup(students[id].borrowed))
    && (forall id, s :: id in students && s in students[id].borrowed ==> s in books)
  }

  /** Nobody holds the book. */
  ghost predicate Unheld(students: map<int, Student>, s: int)
  {
    forall id :: id in students ==> s !in students[id].borrowed
  }

  /** A book is available exactly when nobody holds it, and at most one student holds it. */
  ghost predicate LendingOk(books: map<int, Book>, students: map<int, Student>)
  {
    && (forall s :: s in books ==> (books[s].available <==> Unheld(students, s)))
    && (forall s, i, j :: i in students && j in students && s in students[i].borrowed && s in students[j].borrowed ==> i == j)
  }

  /** Waitlists are well-formed queues of registered students, and only an unavailable book has one. */
  ghost predicate WaitlistsOk(books: map<int, Book>, students: map<int, Student>)
  {
    forall s :: s in books ==>
      && Queues.Valid(books[s].waitlist)
      && (books[s].available ==> Queues.Contents(books[s].waitlist) == [])
      && (forall k :: 0 <= k < |Queues.Contents(books[s].waitlist)| ==> Queues.Contents(books[s].waitlist)[k] in students)
  }

  ghost predicate Valid(hash: Hash, lib: Library)
  {
    && WellFormed(lib)
    && IsBST(lib.books)
    && HashTables.Valid(hash, lib.titles)
    && HashTables.Valid(hash, lib.authors)
    && SerialsMatch(Books(lib))
    && TitlesIndexed(hash, lib.titles, Books(lib))
    && AuthorsIndexed(hash, lib.authors, Books(lib))
    && StudentsOk(Books(lib), lib.students)
    && LendingOk(Books(lib), lib.students)
    && WaitlistsOk(Books(lib), lib.students)
  }

  lemma InitValid(hash: Hash)
    ensures Valid(hash, Init())
  {
    var lib := Init();
    forall t: string ensures HashTables.Get(hash, lib.titles, t) == None && HashTables.Get(hash, lib.authors, t) == None {
      HashTables.NewIsEmpty<string, int>(hash, t);
      HashTables.NewIsEmpty<string, seq<int>>(hash, t);
    }
    HashTables.NewIsEmpty<string, int>(hash, "");
    HashTables.NewIsEmpty<string, seq<int>>(hash, "");
  }

  lemma RegisterPreservesValid(hash: Hash, lib: Library, id: int, name: string)
    requires Valid(hash, lib)
    ensures Valid(hash, RegisterStudent(lib, id, name).next)
  {
    var r := RegisterStudent(lib, id, name);
    if id !in lib.students {
      var b, s, s' := Books(lib), lib.students, r.next.students;
      assert NoDup(s'[id].borrowed);
      forall k | k in b ensures Unheld(s', k) <==> Unheld(s, k) {
      }
      forall k | k in b ensures forall n :: 0 <= n < |Queues.Contents(b[k].waitlist)| ==> Queues.Contents(b[k].waitlist)[n] in s' {
      }
    }
  }

  lemma AddKeepsTitles(hash: Hash, titles: HashTables.HashTable<string, int>, titles': HashTables.HashTable<string, int>,
                       books: map<int, Book>, book: Book)
    requires |titles.buckets| == HashTables.Size && |titles'.buckets| == HashTables.Size
    requires TitlesIndexed(hash, titles, books)
    requires book.serial !in books
    requires HashTables.Get(hash, titles', book.title) == Some(book.serial)
    requires forall t :: t != book.title ==> HashTables.Get(hash, titles', t) == HashTables.Get(hash, titles, t)
    ensures TitlesIndexed(hash, titles', books[book.serial := book])
  {
    var books' := books[book.serial := book];
    forall s | s in books' ensures HashTables.Get(hash, titles', books'[s].title).Some? {
      if s != book.serial && books[s].title != book.title {
        assert HashTables.Get(hash, titles, books[s].title).Some?;
      }
    }
  }

  lemma AddKeepsAuthors(hash: Hash, authors: HashTables.HashTable<string, seq<int>>, authors': HashTables.HashTable<string, seq<int>>,
                        books: map<int, Book>, book: Book)
    requires |authors.buckets| == HashTables.Size && |authors'.buckets| == HashTables.Size
    requires AuthorsIndexed(hash, authors, books)
    requires book.serial !in books
    requires AuthorSerials(hash, authors', book.author) == AuthorSerials(hash, authors, book.author) + [book.serial]
    requires forall a :: a != book.author ==> AuthorSerials(hash, authors', a) == AuthorSerials(hash, authors, a)
    ensures AuthorsIndexed(hash, authors', books[book.serial := book])
  {
    var books' := books[book.serial := book];
    var old' := AuthorSerials(hash, authors, book.author);
    assert book.serial !in old';
    assert multiset(old' + [book.serial]) == multiset(old') + multiset{book.serial};
    forall a, i | 0 <= i < |AuthorSerials(hash, authors', a)|
      ensures AuthorSerials(hash, authors', a)[i] in books' && books'[AuthorSerials(hash, authors', a)[i]].author == a
    {
      if a == book.author && i < |old'| {
        assert AuthorSerials(hash, authors', a)[i] == old'[i];
      }
    }
    forall s | s in books' ensures s in AuthorSerials(hash, authors', books'[s].author) {
      if s != book.serial && books[s].author == book.author {
        assert s in old';
      }
    }
  }

  lemma AddBookPreservesValid(hash: Hash, lib: Library, serial: int, title: string, author: string)
    requires Valid(hash, lib)
    ensures Valid(hash, AddBook(hash, lib, serial, title, author).next)
  {
    var r := AddBook(hash, lib, serial, title, author);
    if Search(lib.books, serial).None? {
      var nb := NewBook(serial, title, author);
      var b, b', st := Books(lib), Books(r.next), lib.students;
      assert b' == b[serial := nb];
      HashTables.InsertValid(hash, lib.titles, title, serial);
      HashTables.InsertValid(hash, lib.authors, author, AuthorSerials(hash, lib.authors, author) + [serial]);
      AddKeepsTitles(hash, lib.titles, r.next.titles, b, nb);
      AddKeepsAuthors(hash, lib.authors, r.next.authors, b, nb);
      AddKeepsLending(b, st, nb);
    }
  }

  /** A new, available book with an empty waitlist, which no student holds yet. */
  lemma AddKeepsLending(books: map<int, Book>, students: map<int, Student>, book: Book)
    requires StudentsOk(books, students) && LendingOk(books, students) && WaitlistsOk(books, students)
    requires book.serial !in books && book.available
    requires Queues.Valid(book.waitlist) && Queues.Contents(book.waitlist) == []
    ensures var books' := books[book.serial := book];
            StudentsOk(books', students) && LendingOk(books', students) && WaitlistsOk(books', students)
  {
    var books' := books[book.serial := book];
    forall s | s in books' ensures books'[s].available <==> Unheld(students, s) {
      if s == book.serial {
        forall id | id in students ensures s !in students[id].borrowed {
        }
      }
    }
  }

  /** Replacing a book's record by one with the same serial and title keeps the title table consistent. */
  lemma SameTitles(hash: Hash, titles: HashTables.HashTable<string, int>, books: map<int, Book>, serial: int, book: Book)
    requires |titles.buckets| == HashTables.Size
    requires SerialsMatch(books) && TitlesIndexed(hash, titles, books)
    requires serial in books && book.serial == books[serial].serial && book.title == books[serial].title
    ensures SerialsMatch(books[serial := book])
    ensures TitlesIndexed(hash, titles, books[serial := book])
  {
    var books' := books[serial := book];
    forall t | HashTables.Get(hash, titles, t).Some?
      ensures HashTables.Get(hash, titles, t).value in books' && books'[HashTables.Get(hash, titles, t).value].title == t
    {
      var x := HashTables.Get(hash, titles, t).value;
      assert x in books && books[x].title == t;
      assert books'[x].title == books[x].title;
    }
    forall s | s in books' ensures HashTables.Get(hash, titles, books'[s].title).Some? {
      assert HashTables.Get(hash, titles, books[s].title).Some?;
    }
  }

  /** Replacing a book's record by one with the same author keeps the author lists consistent. */
  lemma SameAuthors(hash: Hash, authors: HashTables.HashTable<string, seq<int>>, books: map<int, Book>, serial: int, book: Book)
    requires |authors.buckets| == HashTables.Size
    requires AuthorsIndexed(hash, authors, books)
    requires serial in books && book.author == books[serial].author
    ensures AuthorsIndexed(hash, authors, books[serial := book])
  {
    var books' := books[serial := book];
    forall a, i | 0 <= i < |AuthorSerials(hash, authors, a)|
      ensures AuthorSerials(hash, authors, a)[i] in books' && books'[AuthorSerials(hash, authors, a)[i]].author == a
    {
      var x := AuthorSerials(hash, authors, a)[i];
      assert x in books && books[x].author == a;
      assert books'[x].author == books[x].author;
    }
    forall s | s in books' ensures s in AuthorSerials(hash, authors, books'[s].author) {
      assert s in AuthorSerials(hash, authors, books[s].author);
    }
  }

  /** Lending an available book to a registered student, who appends it to their holdings. */
  lemma LendKeepsLending(books: map<int, Book>, students: map<int, Student>, id: int, serial: int, lent: Book)
    requires StudentsOk(books, students) && LendingOk(books, students)
    requires serial in books && books[serial].available && id in students && !lent.available
    ensures var books' := books[serial := lent];
            var students' := students[id := students[id].(borrowed := students[id].borrowed + [serial])];
            StudentsOk(books', students') && LendingOk(books', students')
  {
    var books' := books[serial := lent];
    var held := students[id].borrowed;
    var students' := students[id := students[id].(borrowed := held + [serial])];
    assert Unheld(students, serial);
    assert serial !in held;
    assert multiset(held + [serial]) == multiset(held) + multiset{serial};
    forall k | k in books' ensures books'[k].available <==> Unheld(students', k) {
      if k != serial {
        forall j | j in students ensures k in students'[j].borrowed <==> k in students[j].borrowed {
          if j == id {
            assert k in held + [serial] <==> k in held;
          }
        }
      } else {
        assert serial in students'[id].borrowed;
      }
    }
    forall k, i, j | i in students' && j in students' && k in students'[i].borrowed && k in students'[j].borrowed
      ensures i == j
    {
      if k == serial {
        assert i == id && j == id;
      } else {
        assert k in students[i].borrowed && k in students[j].borrowed;
      }
    }
  }

  /** A student giving back a book they hold, their holdings becoming `held'`: afterwards nobody holds it and every other holding is as before. */
  lemma ReleaseKeepsLending(books: map<int, Book>, students: map<int, Student>, id: int, serial: int, held': seq<int>)
    requires StudentsOk(books, students) && LendingOk(books, students)
    requires id in students && serial in students[id].borrowed
    requires NoDup(held') && serial !in held'
    requires forall k :: k != serial ==> (k in held' <==> k in students[id].borrowed)
    ensures var students' := students[id := students[id].(borrowed := held')];
            var books' := books[serial := books[serial].(available := true)];
            StudentsOk(books', students') && LendingOk(books', students')
  {
    var students' := students[id := students[id].(borrowed := held')];
    var books' := books[serial := books[serial].(available := true)];
    forall k | k in books' ensures books'[k].available <==> Unheld(students', k) {
      if k != serial {
        forall j | j in students ensures k in students'[j].borrowed <==> k in students[j].borrowed {
        }
      } else {
        forall j | j in students' ensures serial !in students'[j].borrowed {
          if j != id {
            assert serial in students[j].borrowed ==> j == id;
          }
        }
      }
    }
  }

  /** Removing the only copy of `x` removes `x` and nothing else. */
  lemma RemoveOnly(xs: seq<int>, x: int)
    requires NoDup(xs) && x in xs
    ensures NoDup(RemoveFirst(xs, x))
    ensures x !in RemoveFirst(xs, x)
    ensures forall k :: k != x ==> (k in RemoveFirst(xs, x) <==> k in xs)
  {
    var r := RemoveFirst(xs, x);
    assert multiset(r) == multiset(xs) - multiset{x};
    assert multiset(xs)[x] == 1;
    forall k | k != x ensures k in r <==> k in xs {
      assert multiset(r)[k] == multiset(xs)[k];
      assert k in r <==> k in multiset(r);
      assert k in xs <==> k in multiset(xs);
    }
  }

  /** Putting a registered student at the end of an unavailable book's waitlist. */
  lemma WaitKeepsLending(books: map<int, Book>, students: map<int, Student>, id: int, serial: int)
    requires StudentsOk(books, students) && LendingOk(books, students) && WaitlistsOk(books, students)
    requires serial in books && !books[serial].available && id in students
    ensures var books' := books[serial := books[serial].(waitlist := Queues.Enqueue(books[serial].waitlist, id))];
            StudentsOk(books', students) && LendingOk(books', students) && WaitlistsOk(books', students)
  {
    var q := books[serial].waitlist;
    assert Queues.Contents(Queues.Enqueue(q, id)) == Queues.Contents(q) + [id];
  }

  /** Borrowing an available book: it becomes unavailable and the borrower is its one holder. */
  lemma BorrowLends(hash: Hash, lib: Library, id: int, serial: int)
    requires Valid(hash, lib)
    requires id in lib.students && Search(lib.books, serial).Some? && Search(lib.books, serial).value.available
    ensures Valid(hash, BorrowBook(lib, id, serial).next)
    ensures var n := BorrowBook(lib, id, serial).next;
            && SearchBySerial(n, serial).Some? && !SearchBySerial(n, serial).value.available
            && forall j :: (j in n.students && serial in n.students[j].borrowed) <==> j == id
  {
    var r := BorrowBook(lib, id, serial);
    var book := Search(lib.books, serial).value;
    var b, st := Books(lib), lib.students;
    var lent := book.(available := false);
    var st' := st[id := st[id].(borrowed := st[id].borrowed + [serial])];
    assert Books(r.next) == b[serial := lent];
    assert r.next.students == st';
    assert serial in b && b[serial] == book;
    SameTitles(hash, lib.titles, b, serial, lent);
    SameAuthors(hash, lib.authors, b, serial, lent);
    LendKeepsLending(b, st, id, serial, lent);
    WaitlistsUpdate(b, st, st', serial, lent);
    assert serial in st'[id].borrowed;
  }

  /** Borrowing an unavailable book joins its waitlist. */
  lemma BorrowWaits(hash: Hash, lib: Library, id: int, serial: int)
    requires Valid(hash, lib)
    requires id in lib.students && Search(lib.books, serial).Some? && !Search(lib.books, serial).value.available
    ensures Valid(hash, BorrowBook(lib, id, serial).next)
  {
    var r := BorrowBook(lib, id, serial);
    var book := Search(lib.books, serial).value;
    var b, st := Books(lib), lib.students;
    var waiting := book.(waitlist := Queues.Enqueue(book.waitlist, id));
    assert Books(r.next) == b[serial := waiting];
    assert r.next.students == st;
    assert serial in b && b[serial] == book;
    SameTitles(hash, lib.titles, b, serial, waiting);
    SameAuthors(hash, lib.authors, b, serial, waiting);
    WaitKeepsLending(b, st, id, serial);
  }

  lemma BorrowPreservesValid(hash: Hash, lib: Library, id: int, serial: int)
    requires Valid(hash, lib)
    ensures Valid(hash, BorrowBook(lib, id, serial).next)
  {
    if id in lib.students && Search(lib.books, serial).Some? {
      if Search(lib.books, serial).value.available {
        BorrowLends(hash, lib, id, serial);
      } else {
        BorrowWaits(hash, lib, id, serial);
      }
    }
  }

  /** Replacing one book's record keeps the waitlists well-formed when the new record's waitlist is. */
  lemma WaitlistsUpdate(books: map<int, Book>, students: map<int, Student>, students': map<int, Student>,
                        serial: int, book: Book)
    requires WaitlistsOk(books, students)
    requires students.Keys <= students'.Keys
    requires Queues.Valid(book.waitlist)
    requires book.available ==> Queues.Contents(book.waitlist) == []
    requires forall k :: 0 <= k < |Queues.Contents(book.waitlist)| ==> Queues.Contents(book.waitlist)[k] in students'
    ensures WaitlistsOk(books[serial := book], students')
  {
    var books' := books[serial := book];
    forall s | s in books'
      ensures forall k :: 0 <= k < |Queues.Contents(books'[s].waitlist)| ==> Queues.Contents(books'[s].waitlist)[k] in students'
    {
      if s != serial {
        assert books'[s] == books[s];
      }
    }
  }

  /** Taking the head off an unavailable book's waitlist keeps the waitlists well-formed. */
  lemma PromoteKeepsWaitlists(books: map<int, Book>, students: map<int, Student>, students': map<int, Student>, serial: int)
    requires WaitlistsOk(books, students)
    requires students.Keys <= students'.Keys
    requires serial in books && Queues.Contents(books[serial].waitlist) != []
    ensures WaitlistsOk(books[serial := books[serial].(available := false, waitlist := Queues.Dequeue(books[serial].waitlist).1)], students')
  {
    var q := books[serial].waitlist;
    var rest := Queues.Dequeue(q).1;
    assert Queues.Contents(rest) == Queues.Contents(q)[1..];
    forall k | 0 <= k < |Queues.Contents(rest)| ensures Queues.Contents(rest)[k] in students' {
      assert Queues.Contents(rest)[k] == Queues.Contents(q)[k + 1];
    }
    WaitlistsUpdate(books, students, students', serial, books[serial].(available := false, waitlist := rest));
  }

  /** A return nobody is waiting for leaves the book available and unheld. */
  lemma ReturnReleases(hash: Hash, lib: Library, id: int, serial: int)
    requires Valid(hash, lib)
    requires id in lib.students && Search(lib.books, serial).Some? && serial in lib.students[id].borrowed
    requires Queues.Contents(Search(lib.books, serial).value.waitlist) == []
    ensures Valid(hash, ReturnBook(lib, id, serial).next)
    ensures var n := ReturnBook(lib, id, serial).next;
            && SearchBySerial(n, serial).Some? && SearchBySerial(n, serial).value.available
            && forall j :: j in n.students ==> serial !in n.students[j].borrowed
  {
    var r := ReturnBook(lib, id, serial);
    var book := Search(lib.books, serial).value;
    var b, b', st := Books(lib), Books(r.next), lib.students;
    assert serial in b && b[serial] == book;
    assert b' == b[serial := book.(available := true)];
    assert r.next.students == st[id := st[id].(borrowed := RemoveFirst(st[id].borrowed, serial))];
    SameTitles(hash, lib.titles, b, serial, book.(available := true));
    SameAuthors(hash, lib.authors, b, serial, book.(available := true));
    RemoveOnly(st[id].borrowed, serial);
    ReleaseKeepsLending(b, st, id, serial, RemoveFirst(st[id].borrowed, serial));
    WaitlistsUpdate(b, st, r.next.students, serial, book.(available := true));
    assert Unheld(r.next.students, serial);
  }

  /** The student's return followed by the promotion of the first waiting student. */
  lemma ReturnAndPromote(books: map<int, Book>, students: map<int, Student>, id: int, serial: int)
    requires StudentsOk(books, students) && LendingOk(books, students) && WaitlistsOk(books, students)
    requires id in students && serial in students[id].borrowed
    requires Queues.Contents(books[serial].waitlist) != []
    ensures var book := books[serial];
            var nextId := Queues.Contents(book.waitlist)[0];
            var lent := book.(available := false, waitlist := Queues.Dequeue(book.waitlist).1);
            var st1 := students[id := students[id].(borrowed := RemoveFirst(students[id].borrowed, serial))];
            var st2 := st1[nextId := st1[nextId].(borrowed := st1[nextId].borrowed + [serial])];
            && nextId in students
            && StudentsOk(books[serial := lent], st2)
            && LendingOk(books[serial := lent], st2)
            && WaitlistsOk(books[serial := lent], st2)
  {
    var book := books[serial];
    var nextId := Queues.Contents(book.waitlist)[0];
    var lent := book.(available := false, waitlist := Queues.Dequeue(book.waitlist).1);
    var st1 := students[id := students[id].(borrowed := RemoveFirst(students[id].borrowed, serial))];
    var st2 := st1[nextId := st1[nextId].(borrowed := st1[nextId].borrowed + [serial])];
    var b1 := books[serial := book.(available := true)];
    assert b1[serial := lent] == books[serial := lent];
    RemoveOnly(students[id].borrowed, serial);
    ReleaseKeepsLending(books, students, id, serial, RemoveFirst(students[id].borrowed, serial));
    LendKeepsLending(b1, st1, nextId, serial, lent);
    PromoteKeepsWaitlists(books, students, st2, serial);
  }

  /** The state a promoting return produces, apart from the log. */
  ghost function Promoted(lib: Library, id: int, serial: int, log: Stacks.Stack<Action>): Library
    requires id in lib.students && Search(lib.books, serial).Some?
    requires Queues.Contents(Search(lib.books, serial).value.waitlist) != []
  {
    var book := Search(lib.books, serial).value;
    var st := lib.students;
    var nextId := Queues.Contents(book.waitlist)[0];
    var st1 := st[id := st[id].(borrowed := RemoveFirst(st[id].borrowed, serial))];
    var st2 := if nextId in st1 then st1[nextId := st1[nextId].(borrowed := st1[nextId].borrowed + [serial])] else st1;
    Library(Insert(lib.books, serial, book.(available := false, waitlist := Queues.Dequeue(book.waitlist).1)),
            lib.titles, lib.authors, st2, log)
  }

  lemma PromotedValid(hash: Hash, lib: Library, id: int, serial: int, log: Stacks.Stack<Action>)
    requires Valid(hash, lib)
    requires id in lib.students && Search(lib.books, serial).Some? && serial in lib.students[id].borrowed
    requires Queues.Contents(Search(lib.books, serial).value.waitlist) != []
    ensures Valid(hash, Promoted(lib, id, serial, log))
  {
    var next := Promoted(lib, id, serial, log);
    var book := Search(lib.books, serial).value;
    var b, st := Books(lib), lib.students;
    assert serial in b && b[serial] == book;
    var lent := book.(available := false, waitlist := Queues.Dequeue(book.waitlist).1);
    assert Books(next) == b[serial := lent];
    ReturnAndPromote(b, st, id, serial);
    SameTitles(hash, lib.titles, b, serial, lent);
    SameAuthors(hash, lib.authors, b, serial, lent);
  }

  /** A return with students waiting hands the book to the first of them. */
  lemma ReturnPromotes(hash: Hash, lib: Library, id: int, serial: int)
    requires Valid(hash, lib)
    requires id in lib.students && Search(lib.books, serial).Some? && serial in lib.students[id].borrowed
    requires Queues.Contents(Search(lib.books, serial).value.waitlist) != []
    ensures Valid(hash, ReturnBook(lib, id, serial).next)
    ensures var book := Search(lib.books, serial).value;
            var first := Queues.Contents(book.waitlist)[0];
            var r := ReturnBook(lib, id, serial);
            && r.outcome == ReturnedAndAutoBorrowed(first)
            && SearchBySerial(r.next, serial) == Some(book.(available := false, waitlist := Queues.Dequeue(book.waitlist).1))
            && forall j :: (j in r.next.students && serial in r.next.students[j].borrowed) <==> j == first
  {
    var next := ReturnBook(lib, id, serial).next;
    var book := Search(lib.books, serial).value;
    assert book.waitlist.front.Link?;
    assert next == Promoted(lib, id, serial, next.log);
    PromotedValid(hash, lib, id, serial, next.log);
    PromotedHolder(hash, lib, id, serial, next.log);
  }

  /** In the promoted state the first waiting student holds the book, and only they do. */
  lemma PromotedHolder(hash: Hash, lib: Library, id: int, serial: int, log: Stacks.Stack<Action>)
    requires Valid(hash, lib)
    requires id in lib.students && Search(lib.books, serial).Some? && serial in lib.students[id].borrowed
    requires Queues.Contents(Search(lib.books, serial).value.waitlist) != []
    requires Valid(hash, Promoted(lib, id, serial, log))
    ensures var book := Search(lib.books, serial).value;
            var first := Queues.Contents(book.waitlist)[0];
            var n := Promoted(lib, id, serial, log);
            && SearchBySerial(n, serial) == Some(book.(available := false, waitlist := Queues.Dequeue(book.waitlist).1))
            && forall j :: (j in n.students && serial in n.students[j].borrowed) <==> j == first
  {
    var book := Search(lib.books, serial).value;
    var first := Queues.Contents(book.waitlist)[0];
    var n := Promoted(lib, id, serial, log);
    assert serial in Books(lib) && Books(lib)[serial] == book;
    assert first in lib.students;
    assert serial in n.students[first].borrowed;
    SearchAfterInsert(lib.books, serial, book.(available := false, waitlist := Queues.Dequeue(book.waitlist).1), serial);
  }

  lemma ReturnPreservesValid(hash: Hash, lib: Library, id: int, serial: int)
    requires Valid(hash, lib)
    ensures Valid(hash, ReturnBook(lib, id, serial).next)
  {
    if id in lib.students && Search(lib.books, serial).Some? && serial in lib.students[id].borrowed {
      if Queues.Contents(Search(lib.books, serial).value.waitlist) == [] {
        ReturnReleases(hash, lib, id, serial);
      } else {
        ReturnPromotes(hash, lib, id, serial);
      }
    }
  }
}
