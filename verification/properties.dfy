/**
 * What a client of the `Library` class observes: who holds a lent book,
 * what the three searches and the two listings return, and that every
 * state a session of operations reaches keeps the invariant.
 */
module LmsProperties {
  import opened Wrappers
  import Queues
  import Stacks
  import opened SearchTrees
  import HashTables
  import opened Records
  import TitleSort
  import opened Lms
  import opened LmsInvariants

  /** One state-changing command of the menu. */
  datatype Command =
    | Register(id: int, name: string)
    | Add(serial: int, title: string, author: string)
    | Lend(id: int, serial: int)
    | Take(id: int, serial: int)

  function Step(hash: Hash, lib: Library, c: Command): (r: Reply)
    requires WellFormed(lib)
    ensures WellFormed(r.next)
  {
    match c
    case Register(id, name) => RegisterStudent(lib, id, name)
    case Add(serial, title, author) => AddBook(hash, lib, serial, title, author)
    case Lend(id, serial) => BorrowBook(lib, id, serial)
    case Take(id, serial) => ReturnBook(lib, id, serial)
  }

  /** The library after running the commands in order on a fresh `Library()`. */
  function Run(hash: Hash, cs: seq<Command>): (lib: Library)
    ensures WellFormed(lib)
  {
    if |cs| == 0 then Init()
    else Step(hash, Run(hash, cs[..|cs| - 1]), cs[|cs| - 1]).next
  }

  lemma StepPreservesValid(hash: Hash, lib: Library, c: Command)
    requires Valid(hash, lib)
    ensures Valid(hash, Step(hash, lib, c).next)
  {
    match c
    case Register(id, name) => RegisterPreservesValid(hash, lib, id, name);
    case Add(serial, title, author) => AddBookPreservesValid(hash, lib, serial, title, author);
    case Lend(id, serial) => BorrowPreservesValid(hash, lib, id, serial);
    case Take(id, serial) => ReturnPreservesValid(hash, lib, id, serial);
  }

  /** Every state a session reaches is consistent. */
  lemma {:induction false} RunValid(hash: Hash, cs: seq<Command>)
    ensures Valid(hash, Run(hash, cs))
  {
    if |cs| == 0 {
      InitValid(hash);
    } else {
      RunValid(hash, cs[..|cs| - 1]);
      StepPreservesValid(hash, Run(hash, cs[..|cs| - 1]), cs[|cs| - 1]);
    }
  }

  /**
   * In a consistent state a catalogued book is unavailable exactly when some
   * registered student holds it, and then only one does.
   */
  lemma UnavailableIffOneHolder(hash: Hash, lib: Library, serial: int)
    requires Valid(hash, lib)
    requires SearchBySerial(lib, serial).Some?
    ensures !SearchBySerial(lib, serial).value.available <==>
              exists id :: id in lib.students && serial in lib.students[id].borrowed
    ensures forall i, j :: (i in lib.students && j in lib.students &&
              serial in lib.students[i].borrowed && serial in lib.students[j].borrowed) ==> i == j
  {
    assert serial in Books(lib);
  }

  /** The same after any session of commands. */
  lemma SessionLending(hash: Hash, cs: seq<Command>, serial: int)
    requires SearchBySerial(Run(hash, cs), serial).Some?
    ensures var lib := Run(hash, cs);
            && (!SearchBySerial(lib, serial).value.available <==>
                  exists id :: id in lib.students && serial in lib.students[id].borrowed)
            && (forall i, j :: (i in lib.students && j in lib.students &&
                  serial in lib.students[i].borrowed && serial in lib.students[j].borrowed) ==> i == j)
  {
    RunValid(hash, cs);
    UnavailableIffOneHolder(hash, Run(hash, cs), serial);
  }

  /**
   * `search_book_by_title` finds a book exactly when some catalogued book has
   * that title, and what it finds is that catalogued book.
   */
  lemma SearchByTitleExact(hash: Hash, lib: Library, title: string)
    requires Valid(hash, lib)
    ensures SearchByTitle(hash, lib, title).Some? <==> exists s :: s in Books(lib) && Books(lib)[s].title == title
    ensures SearchByTitle(hash, lib, title).Some? ==>
              var b := SearchByTitle(hash, lib, title).value;
              b.title == title && b.serial in Books(lib) && Books(lib)[b.serial] == b
  {
    var b := Books(lib);
    if exists s :: s in b && b[s].title == title {
      var s :| s in b && b[s].title == title;
      assert HashTables.Get(hash, lib.titles, b[s].title).Some?;
    }
    match HashTables.Get(hash, lib.titles, title)
    case None =>
    case Some(s) =>
      assert s in b && b[s].title == title;
  }

  /** Resolving serials that are all in the tree yields their books, one for one. */
  lemma {:induction false} ResolveAll(t: Tree<Book>, serials: seq<int>)
    requires forall i :: 0 <= i < |serials| ==> Search(t, serials[i]).Some?
    ensures |Resolve(t, serials)| == |serials|
    ensures forall i :: 0 <= i < |serials| ==> Resolve(t, serials)[i] == Search(t, serials[i]).value
  {
    if |serials| > 0 {
      var rest := serials[1..];
      forall i | 0 <= i < |rest| ensures Search(t, rest[i]).Some? {
        assert rest[i] == serials[i + 1];
      }
      ResolveAll(t, rest);
      forall i | 0 <= i < |serials| ensures Resolve(t, serials)[i] == Search(t, serials[i]).value {
        if i > 0 {
          assert serials[i] == rest[i - 1];
        }
      }
    }
  }

  /**
   * `search_books_by_author` lists each book of that author exactly once, in
   * the order the author's list holds them, and nothing else.
   */
  lemma SearchByAuthorExact(hash: Hash, lib: Library, author: string)
    requires Valid(hash, lib)
    ensures var r := SearchByAuthor(hash, lib, author);
            var serials := AuthorSerials(hash, lib.authors, author);
            && |r| == |serials|
            && (forall i :: 0 <= i < |r| ==> serials[i] in Books(lib) && r[i] == Books(lib)[serials[i]])
            && (forall i :: 0 <= i < |r| ==> r[i].author == author)
            && (forall i, j :: 0 <= i < j < |r| ==> r[i].serial != r[j].serial)
            && (forall s :: s in Books(lib) && Books(lib)[s].author == author ==> Books(lib)[s] in r)
  {
    var b := Books(lib);
    var serials := AuthorSerials(hash, lib.authors, author);
    ResolveIndexed(lib.books, serials);
    var r := SearchByAuthor(hash, lib, author);
    forall i, j | 0 <= i < j < |r| ensures r[i].serial != r[j].serial {
      NoDupDistinct(serials, i, j);
    }
    forall s | s in b && b[s].author == author ensures b[s] in r {
      var i :| 0 <= i < |serials| && serials[i] == s;
      assert r[i] == b[s];
    }
  }

  /** Resolving serials that are all catalogued yields the catalogued books, one for one. */
  lemma ResolveIndexed(t: Tree<Book>, serials: seq<int>)
    requires IsBST(t) && SerialsMatch(ToMap(t))
    requires forall i :: 0 <= i < |serials| ==> serials[i] in ToMap(t)
    ensures var r := Resolve(t, serials);
            && |r| == |serials|
            && (forall i :: 0 <= i < |r| ==> r[i] == ToMap(t)[serials[i]] && r[i].serial == serials[i])
  {
    ResolveAll(t, serials);
  }

  /** Equal entries at two positions make the value occur at least twice. */
  lemma TwoOccurrences(xs: seq<int>, i: int, j: int)
    requires 0 <= i < j < |xs| && xs[i] == xs[j]
    ensures multiset(xs)[xs[i]] >= 2
  {
    var x := xs[j];
    assert xs == xs[..j] + [x] + xs[j + 1..];
    assert xs[..j][i] == x;
  }

  /** A list without repeats has different entries at different positions. */
  lemma NoDupDistinct(xs: seq<int>, i: int, j: int)
    requires NoDup(xs) && 0 <= i < j < |xs|
    ensures xs[i] != xs[j]
  {
    if xs[i] == xs[j] {
      TwoOccurrences(xs, i, j);
    }
  }

  /**
   * After a successful `add_book` the new book is found by its serial, by its
   * title (displacing an earlier book of the same title from the title
   * search) and at the end of its author's list; every other title search
   * and author search is as before.
   */
  lemma AddBookFindable(hash: Hash, lib: Library, serial: int, title: string, author: string)
    requires Valid(hash, lib)
    requires SearchBySerial(lib, serial).None?
    ensures var next := AddBook(hash, lib, serial, title, author).next;
            var book := NewBook(serial, title, author);
            && SearchBySerial(next, serial) == Some(book)
            && SearchByTitle(hash, next, title) == Some(book)
            && (forall t :: t != title ==> SearchByTitle(hash, next, t) == SearchByTitle(hash, lib, t))
            && SearchByAuthor(hash, next, author) == SearchByAuthor(hash, lib, author) + [book]
            && (forall a :: a != author ==> SearchByAuthor(hash, next, a) == SearchByAuthor(hash, lib, a))
  {
    var next := AddBook(hash, lib, serial, title, author).next;
    var book := NewBook(serial, title, author);
    AddBookPreservesValid(hash, lib, serial, title, author);
    forall t | t != title ensures SearchByTitle(hash, next, t) == SearchByTitle(hash, lib, t) {
      match HashTables.Get(hash, lib.titles, t)
      case None =>
      case Some(s) =>
        assert s in Books(lib);
        SearchAfterInsert(lib.books, serial, book, s);
    }
    AuthorListGrows(hash, lib, serial, title, author);
    forall a | a != author ensures SearchByAuthor(hash, next, a) == SearchByAuthor(hash, lib, a) {
      SameResolve(lib.books, serial, book, AuthorSerials(hash, lib.authors, a));
    }
  }

  /** Serials already in the tree resolve the same after a new serial is inserted. */
  lemma SameResolve(t: Tree<Book>, serial: int, book: Book, serials: seq<int>)
    requires IsBST(t) && serial !in ToMap(t)
    requires forall i :: 0 <= i < |serials| ==> serials[i] in ToMap(t)
    ensures Resolve(Insert(t, serial, book), serials) == Resolve(t, serials)
  {
    var t' := Insert(t, serial, book);
    forall i | 0 <= i < |serials| ensures Search(t', serials[i]) == Search(t, serials[i]) && Search(t, serials[i]).Some? {
      SearchAfterInsert(t, serial, book, serials[i]);
    }
    ResolveAll(t', serials);
    ResolveAll(t, serials);
  }

  /** Appending the new serial to a list of serials already in the tree appends its book to what they resolve to. */
  lemma ResolveAppend(t: Tree<Book>, serial: int, book: Book, serials: seq<int>)
    requires IsBST(t) && serial !in ToMap(t)
    requires forall i :: 0 <= i < |serials| ==> serials[i] in ToMap(t)
    ensures Resolve(Insert(t, serial, book), serials + [serial]) == Resolve(t, serials) + [book]
  {
    var t' := Insert(t, serial, book);
    ResolveSnoc(t', serials, serial);
    SameResolve(t, serial, book, serials);
    SearchAfterInsert(t, serial, book, serial);
    assert Resolve(t', [serial]) == [book] by {
      assert [serial][1..] == [];
    }
  }

  /** Resolving a list with one more serial at the end resolves that serial last. */
  lemma {:induction false} ResolveSnoc(t: Tree<Book>, serials: seq<int>, serial: int)
    ensures Resolve(t, serials + [serial]) == Resolve(t, serials) + Resolve(t, [serial])
  {
    if |serials| > 0 {
      assert (serials + [serial])[1..] == serials[1..] + [serial];
      ResolveSnoc(t, serials[1..], serial);
    } else {
      assert serials + [serial] == [serial];
    }
  }

  /** The new serial goes to the end of its author's list, so its book ends that author's search. */
  lemma AuthorListGrows(hash: Hash, lib: Library, serial: int, title: string, author: string)
    requires Valid(hash, lib) && Search(lib.books, serial).None?
    ensures SearchByAuthor(hash, AddBook(hash, lib, serial, title, author).next, author) ==
              SearchByAuthor(hash, lib, author) + [NewBook(serial, title, author)]
  {
    var next := AddBook(hash, lib, serial, title, author).next;
    var serials := AuthorSerials(hash, lib.authors, author);
    assert AuthorSerials(hash, next.authors, author) == serials + [serial];
    assert next.books == Insert(lib.books, serial, NewBook(serial, title, author));
    ResolveAppend(lib.books, serial, NewBook(serial, title, author), serials);
  }

  /** The in-order list of a search tree whose books sit under their own serials. */
  lemma InOrderOfTree(t: Tree<Book>)
    requires IsBST(t) && SerialsMatch(ToMap(t))
    ensures var bs := InOrder(t);
            && TitleSort.SerialAscending(bs)
            && (forall i :: 0 <= i < |bs| ==> bs[i].serial in ToMap(t) && ToMap(t)[bs[i].serial] == bs[i])
            && (forall s :: s in ToMap(t) ==> ToMap(t)[s] in bs)
  {
    var m := ToMap(t);
    var bs, ks := InOrder(t), InOrderKeys(t);
    InOrderSorted(t);
    forall i | 0 <= i < |bs| ensures bs[i].serial == ks[i] && ks[i] in m && m[ks[i]] == bs[i] {
      assert Search(t, ks[i]) == Some(bs[i]);
    }
    forall s | s in m ensures m[s] in bs {
      assert s in ks;
      var i :| 0 <= i < |ks| && ks[i] == s;
      assert bs[i] == m[s];
    }
  }

  /**
   * `_inorder_books` lists every catalogued book exactly once, in strictly
   * ascending serial order.
   */
  lemma InOrderBooksExact(hash: Hash, lib: Library)
    requires Valid(hash, lib)
    ensures var bs := InOrderBooks(lib);
            && TitleSort.SerialAscending(bs)
            && (forall i :: 0 <= i < |bs| ==> bs[i].serial in Books(lib) && Books(lib)[bs[i].serial] == bs[i])
            && (forall s :: s in Books(lib) ==> Books(lib)[s] in bs)
  {
    InOrderOfTree(lib.books);
  }

  /**
   * `get_sorted_books()` lists every catalogued book exactly once, ordered
   * by title, with books of equal title in ascending serial order.
   */
  lemma SortedBooksExact(hash: Hash, lib: Library)
    requires Valid(hash, lib)
    ensures var sb := SortedBooks(lib);
            && multiset(sb) == multiset(InOrderBooks(lib))
            && TitleSort.StrictlyOrdered(sb)
            && (forall b :: b in sb <==> b in InOrderBooks(lib))
            && (forall s :: s in Books(lib) ==> Books(lib)[s] in sb)
  {
    var bs := InOrderBooks(lib);
    var sb := SortedBooks(lib);
    InOrderBooksExact(hash, lib);
    TitleSort.SortIsStable(bs);
    forall b ensures b in sb <==> b in bs {
      assert b in sb <==> b in multiset(sb);
      assert b in bs <==> b in multiset(bs);
    }
  }
}
