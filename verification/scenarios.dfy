/**
 * Concrete sessions of the `Library` class: a lending hand-over example
 * and the first-come, first-served promotion from a waitlist.
 * They hold for every string hash.
 */
module LmsScenarios {
  import opened Wrappers
  import Queues
  import opened SearchTrees
  import opened Records
  import opened Lms
  import LmsInvariants

  /**
   * One copy of "Dune", two students: the first borrows it, the second is
   * waitlisted, the first returns it and it passes straight to the second,
   * who returns it and leaves it available.
   */
  lemma HandOver(hash: Hash)
    ensures var lib := RegisterStudent(RegisterStudent(AddBook(hash, Init(), 1, "Dune", "Herbert").next, 10, "Ann").next, 11, "Bo").next;
            var r1 := BorrowBook(lib, 10, 1);
            var r2 := BorrowBook(r1.next, 11, 1);
            var r3 := ReturnBook(r2.next, 10, 1);
            var r4 := ReturnBook(r3.next, 11, 1);
            && r1.outcome == Borrowed && SearchBySerial(r1.next, 1).value.available == false
            && r2.outcome == AddedToWaitlist && SearchBySerial(r2.next, 1).value.available == false
            && r3.outcome == ReturnedAndAutoBorrowed(11) && SearchBySerial(r3.next, 1).value.available == false
            && r3.next.students[11].borrowed == [1] && r3.next.students[10].borrowed == []
            && r4.outcome == Returned && SearchBySerial(r4.next, 1).value.available == true
            && r4.next.students[11].borrowed == []
  {
    var lib := RegisterStudent(RegisterStudent(AddBook(hash, Init(), 1, "Dune", "Herbert").next, 10, "Ann").next, 11, "Bo").next;
    assert lib.books == Node(1, NewBook(1, "Dune", "Herbert"), Leaf, Leaf);
    var r1 := BorrowBook(lib, 10, 1);
    var r2 := BorrowBook(r1.next, 11, 1);
    var q := Queues.Enqueue(NewBook(1, "Dune", "Herbert").waitlist, 11);
    assert Queues.Contents(q) == [11];
    var r3 := ReturnBook(r2.next, 10, 1);
    assert Queues.Contents(Queues.Dequeue(q).1) == [];
  }

  /**
   * Two students queue, in turn, for a book someone holds: the holder's
   * return hands it to the first of them, and that student's return hands
   * it to the second.
   */
  lemma FirstComeFirstServed(hash: Hash, lib: Library, holder: int, first: int, second: int, serial: int)
    requires LmsInvariants.Valid(hash, lib)
    requires holder in lib.students && first in lib.students && second in lib.students
    requires SearchBySerial(lib, serial).Some? && serial in lib.students[holder].borrowed
    requires Queues.Contents(SearchBySerial(lib, serial).value.waitlist) == []
    ensures var r1 := BorrowBook(lib, first, serial);
            var r2 := BorrowBook(r1.next, second, serial);
            var r3 := ReturnBook(r2.next, holder, serial);
            var r4 := ReturnBook(r3.next, first, serial);
            && r1.outcome == AddedToWaitlist && r2.outcome == AddedToWaitlist
            && r3.outcome == ReturnedAndAutoBorrowed(first)
            && r4.outcome == ReturnedAndAutoBorrowed(second)
            && Queues.Contents(SearchBySerial(r4.next, serial).value.waitlist) == []
  {
    var book := SearchBySerial(lib, serial).value;
    assert serial in Books(lib);
    QueueUp(lib, first, second, serial);
    var r2 := BorrowBook(BorrowBook(lib, first, serial).next, second, serial);
    ServeInTurn(r2.next, holder, first, second, serial);
  }

  /** Two borrowers of an unavailable book join its waitlist in the order they asked. */
  lemma QueueUp(lib: Library, first: int, second: int, serial: int)
    requires IsBST(lib.books) && first in lib.students && second in lib.students
    requires SearchBySerial(lib, serial).Some? && !SearchBySerial(lib, serial).value.available
    requires Queues.Valid(SearchBySerial(lib, serial).value.waitlist)
    ensures var book := SearchBySerial(lib, serial).value;
            var r1 := BorrowBook(lib, first, serial);
            var r2 := BorrowBook(r1.next, second, serial);
            && r1.outcome == AddedToWaitlist && r2.outcome == AddedToWaitlist
            && IsBST(r2.next.books) && r2.next.students == lib.students
            && SearchBySerial(r2.next, serial).Some? && !SearchBySerial(r2.next, serial).value.available
            && Queues.Valid(SearchBySerial(r2.next, serial).value.waitlist)
            && Queues.Contents(SearchBySerial(r2.next, serial).value.waitlist) == Queues.Contents(book.waitlist) + [first, second]
  {
    var book := SearchBySerial(lib, serial).value;
    var r1 := BorrowBook(lib, first, serial);
    var b1 := book.(waitlist := Queues.Enqueue(book.waitlist, first));
    assert Search(r1.next.books, serial) == Some(b1);
    var r2 := BorrowBook(r1.next, second, serial);
    var b2 := b1.(waitlist := Queues.Enqueue(b1.waitlist, second));
    assert Search(r2.next.books, serial) == Some(b2);
  }

  /** With two students waiting, the holder's return serves the first and the first's return serves the second. */
  lemma ServeInTurn(lib: Library, holder: int, first: int, second: int, serial: int)
    requires IsBST(lib.books) && holder in lib.students && first in lib.students && second in lib.students
    requires SearchBySerial(lib, serial).Some? && serial in lib.students[holder].borrowed
    requires Queues.Valid(SearchBySerial(lib, serial).value.waitlist)
    requires Queues.Contents(SearchBySerial(lib, serial).value.waitlist) == [first, second]
    ensures var r3 := ReturnBook(lib, holder, serial);
            var r4 := ReturnBook(r3.next, first, serial);
            && r3.outcome == ReturnedAndAutoBorrowed(first)
            && r4.outcome == ReturnedAndAutoBorrowed(second)
            && Queues.Contents(SearchBySerial(r4.next, serial).value.waitlist) == []
  {
    var b2 := SearchBySerial(lib, serial).value;
    var r3 := ReturnBook(lib, holder, serial);
    var b3 := b2.(available := false, waitlist := Queues.Dequeue(b2.waitlist).1);
    assert Search(r3.next.books, serial) == Some(b3);
    assert Queues.Contents(b3.waitlist) == [second];
    assert serial in r3.next.students[first].borrowed;
    var r4 := ReturnBook(r3.next, first, serial);
    assert Search(r4.next.books, serial) == Some(b3.(waitlist := Queues.Dequeue(b3.waitlist).1));
  }
}
