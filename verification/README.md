# Library management system: a Dafny model of `lms.py`

`lms.py` is an in-memory library catalogue. It stores books in three
indexes: an unbalanced binary search tree keyed by serial, a hash table
keyed by title, and a hash table keyed by author whose values are lists of
books. It keeps a dictionary of registered students, a linked-list queue per
book as its waitlist, and a list-backed stack as the action log.

The `Library` class has these operations:

- `register_student` and `add_book`;
- `borrow_book`, which lends an available book or puts the student on its
  waitlist;
- `return_book`, which hands the book straight to the first waiting student
  when there is one;
- three searches, the in-order listing, the title-sorted listing and the log
  read-back.

The model is functional. Each container is an immutable datatype with pure
operations:

- `Queues`: a chain of nodes plus the rear node;
- `Stacks`: a sequence;
- `SearchTrees`: an inductive tree;
- `HashTables`: ten buckets of key/value pairs.

`Lms` models the `Library` class. Each operation returns the next state and
an outcome tag. Python's shared object references become serial numbers and
student ids:

- the tree stores each book record under its serial;
- the title table maps a title to a serial;
- the author table maps an author to the list of their serials;
- a student's `borrowed` is a sequence of serials;
- a waitlist is a queue of student ids.

Writing a changed book back with a tree insert on its existing serial plays
the part of mutating the shared object in place.

`LmsInvariants.Valid` is the consistency the class keeps. It covers:

- the tree ordering;
- keys sitting in their hash buckets;
- the title and author indexes agreeing with the tree;
- students holding only catalogued books, never the same one twice;
- a book being unavailable exactly when one student holds it;
- waitlists holding registered students, and only for unavailable books.

Every operation preserves it. `LmsProperties` states what callers observe:
the searches, the listings, and the lending invariant over any session of
commands. `LmsScenarios` works through the hand-over example and first-come,
first-served promotion.

Python's built-in `hash` is a parameter `hash: string -> int` of every
operation that touches a hash table. Every hash-table property holds for
every such function. The bucket is `hash(key) % 10`, and Dafny's `%` agrees
with Python's for a positive divisor.

## Model

| member | source | states |
|---|---|---|
| Queues.Empty | lms.py:11-13 | a new queue is well formed (front empty exactly when rear is empty) and holds no items |
| Queues.Enqueue | lms.py:15-21 | the item goes behind all others; a well-formed queue stays well formed, with the rear at the new last node |
| Queues.Dequeue | lms.py:23-30 | an empty queue yields None and is unchanged; otherwise the item waiting longest comes out and the rest keep their order; removing the last item clears the rear |
| Queues.IsEmpty | lms.py:32-33 | true exactly when no items remain |
| Queues.EnqueueAllContents | lms.py:15-21 | enqueuing a list appends it, in order, behind the current items |
| Queues.DrainAllContents | lms.py:23-30 | dequeuing until empty yields the items front first |
| Queues.Fifo | lms.py:15-30 | items come out in the order they went in, behind those already waiting |
| Stacks.Empty | lms.py:36-37 | a new log reads back as nothing |
| Stacks.IsEmpty | lms.py:47-48 | true exactly when the read-back is empty |
| Stacks.Pop | lms.py:42-45 | an empty stack yields None and is unchanged; otherwise the newest entry comes out and the rest read back as before |
| Stacks.PopPush | lms.py:39-45 | popping right after a push returns the pushed item and the original stack |
| Stacks.GetAll | lms.py:50-51 | the read-back has one entry per push, newest first |
| Stacks.GetAllPush | lms.py:39-51 | after a push the read-back is the new entry followed by the previous read-back |
| Stacks.GetAllPushAll | lms.py:39-51 | after pushing a list the read-back starts with that list reversed |
| SearchTrees.Insert | lms.py:64-82 | the key set gains the key; the search-tree ordering is kept; the stored mapping is updated at that key only |
| SearchTrees.InsertSize | lms.py:64-82 | a new key adds exactly one node, an existing key adds none |
| SearchTrees.ReinsertKeepsShape | lms.py:81-82 | re-inserting a stored key leaves the keys and the node count as they were; the stored mapping changes only at that key, which now gives the new value |
| SearchTrees.Search | lms.py:84-92 | in a search tree, finds a value exactly when the key is stored, and it is the value stored under it; an absent key gives None |
| SearchTrees.SearchAfterInsert | lms.py:64-92 | after `insert(k, v)`, searching `k` gives `v` and every other key gives what it gave before |
| SearchTrees.InOrderShape | lms.py:241-249 | the traversal visits every node once: as many values as nodes, and exactly the stored keys |
| SearchTrees.InOrderAscending | lms.py:241-249 | in a search tree the traversal visits keys in strictly ascending order |
| SearchTrees.InOrderValues | lms.py:241-249 | each traversed value is the one stored under the key visited at the same position |
| SearchTrees.InOrderSorted | lms.py:241-249 | the traversal lists every stored key exactly once, ascending, each with its own value |
| HashTables.Index | lms.py:99-100 | for any hash function the bucket index lies in 0..9 |
| HashTables.New | lms.py:95-97 | a new table has ten empty buckets |
| HashTables.NewIsEmpty | lms.py:95-115 | a new table is well formed and finds no key |
| HashTables.BucketGet | lms.py:110-115 | the scan finds a value exactly when the key occurs in the bucket, and it is the value of the first pair holding that key |
| HashTables.BucketInsert | lms.py:102-108 | the scan overwrites the key's pair in place or appends one; the key then maps to the new value and every other key keeps its value |
| HashTables.BucketInsertDistinct | lms.py:102-108 | overwriting in place instead of appending keeps a bucket free of repeated keys |
| HashTables.Insert | lms.py:102-108 | after `insert(k, v)`, `get(k)` is `v` and every other key, including keys in the same bucket, keeps its result |
| HashTables.InsertValid | lms.py:102-108 | every pair stays in the bucket of its key with keys distinct per bucket, and the stored keys gain exactly `k` |
| HashTables.GetFindsStored | lms.py:110-115 | in a well-formed table `get` finds a value exactly when the key is stored, so an absent key gives None |
| Records.NewBook | lms.py:117-123 | a new book is available and has an empty waitlist |
| StringOrder.Irreflexive | lms.py:234 | no title sorts before itself |
| StringOrder.Transitive | lms.py:234 | the title order is transitive |
| StringOrder.Total | lms.py:234 | of two different titles one sorts before the other |
| StringOrder.Asymmetric | lms.py:234 | two titles never sort before each other |
| TitleSort.InsertByTitle | lms.py:234 | inserting a book into a list adds exactly that book |
| TitleSort.InsertKeepsTitleOrder | lms.py:234 | inserting into a title-ordered list keeps it title-ordered |
| TitleSort.SortByTitle | lms.py:233-234 | the sort returns a permutation of its input with titles never decreasing |
| TitleSort.InsertKeepsStrictOrder | lms.py:234 | a book with a smaller serial than all others, inserted by title, keeps the (title, serial) order |
| TitleSort.SortIsStable | lms.py:232-234 | sorting a serial-ascending list by title lists books by title, and equal titles by ascending serial |
| Lms.RemoveFirst | lms.py:193 | `list.remove` cuts out the first occurrence of a held serial, keeping everything before and after it in order, so one copy fewer remains; a list without the serial is unchanged |
| Lms.RemoveFirstSplits | lms.py:193 | removing `x` from `xs + [x] + ys` with no `x` in `xs` gives exactly `xs + ys` |
| Lms.Init | lms.py:132-137 | a new library has no books, no students and an empty log |
| Lms.RegisterStudent | lms.py:139-146 | a known id changes nothing; otherwise only the new student, holding nothing, is added and exactly one entry is logged |
| Lms.AddBook | lms.py:148-161 | an existing serial changes nothing; otherwise the available new book is stored under its serial and nothing else in the tree changes, the title now finds its serial and other titles are unchanged, the serial is appended to its author's list and other authors are unchanged, students are unchanged and exactly one entry is logged |
| Lms.BorrowBook | lms.py:163-180 | an unknown student or serial changes nothing; an available book becomes unavailable and is appended to the student's holdings; an unavailable book gets the student appended to its waitlist and stays unavailable; other students and both indexes are unchanged and exactly one entry is logged |
| Lms.ReturnBook | lms.py:182-203 | an unknown student or serial, or a book the student does not hold, changes nothing; otherwise one copy leaves the student's holdings; with nobody waiting the book becomes available and one entry is logged; otherwise the first waiting student is dequeued and receives the book, which stays unavailable, and two entries are logged |
| Lms.SearchBySerial | lms.py:205-211 | in a search tree, finds a book exactly when the serial is catalogued, and it is the catalogued record |
| Lms.Resolve | lms.py:221-229 | the listed books are found under serials of the author's list, and there are no more of them than serials |
| Lms.RecentActions | lms.py:251-258 | the log read back newest first |
| LmsInvariants.InitValid | lms.py:132-137 | a new library is consistent |
| LmsInvariants.RegisterPreservesValid | lms.py:139-146 | registering keeps the library consistent |
| LmsInvariants.AddBookPreservesValid | lms.py:148-161 | adding a book keeps the three indexes consistent with each other and with the students |
| LmsInvariants.BorrowLends | lms.py:172-175 | lending an available book keeps the library consistent; afterwards the book is unavailable and the borrower is the one student holding it |
| LmsInvariants.BorrowWaits | lms.py:177-180 | joining a waitlist keeps the library consistent, even for a student already waiting or holding the book |
| LmsInvariants.BorrowPreservesValid | lms.py:163-180 | every borrow keeps the library consistent |
| LmsInvariants.ReturnReleases | lms.py:191-196 | a return with nobody waiting keeps the library consistent; afterwards the book is available and no student holds it |
| LmsInvariants.ReturnPromotes | lms.py:191-201 | a return with students waiting keeps the library consistent; its outcome names the first waiting student, the book stays unavailable with that student taken off its waitlist, and that student is the one holding it |
| LmsInvariants.PromotedHolder | lms.py:191-201 | in the state after a promoting return the stored record is unavailable with the head dequeued, and exactly the promoted student holds the book |
| LmsInvariants.ReturnPreservesValid | lms.py:182-203 | every return keeps the library consistent |
| LmsProperties.RunValid | lms.py:131-203 | every state reached from a new library by any sequence of commands is consistent |
| LmsProperties.UnavailableIffOneHolder | lms.py:163-203 | in a consistent state a catalogued book is unavailable exactly when some student holds it, and no two students hold it |
| LmsProperties.SessionLending | lms.py:131-203 | after any sequence of commands a book is unavailable exactly when one student holds it |
| LmsProperties.SearchByTitleExact | lms.py:213-219 | the contract of `Lms.SearchByTitle`: in a consistent library the title search finds a book exactly when a catalogued book has that title, and returns that catalogued record |
| LmsProperties.SearchByAuthorExact | lms.py:221-229 | the contract of `Lms.SearchByAuthor`: in a consistent library the author search lists each of that author's books exactly once, in the order they were added, and no other book |
| LmsProperties.AddBookFindable | lms.py:148-161 | after adding, the new book is found by its serial, by its title (hiding an older book of the same title) and last among its author's books; other title and author searches are unchanged |
| LmsProperties.AuthorListGrows | lms.py:154-159 | adding a book appends it to the end of its author's search result |
| LmsProperties.InOrderBooksExact | lms.py:241-249 | the contract of `Lms.InOrderBooks`: in a consistent library the in-order listing holds every catalogued book exactly once, by strictly ascending serial |
| LmsProperties.SortedBooksExact | lms.py:231-239 | the contract of `Lms.SortedBooks`: in a consistent library the sorted listing holds every catalogued book exactly once, by title, with equal titles by ascending serial |
| LmsScenarios.HandOver | lms.py:163-203 | borrow, waitlist, return with hand-over, then return: unavailable, unavailable, unavailable and held by the waiting student, then available |
| LmsScenarios.QueueUp | lms.py:177-180 | two borrowers of an unavailable book join its waitlist in the order they asked |
| LmsScenarios.ServeInTurn | lms.py:191-201 | with two students waiting, the holder's return serves the first and the first's return serves the second |
| LmsScenarios.FirstComeFirstServed | lms.py:163-203 | two students who queue in turn for a held book receive it in that order |

## Behaviour of lms.py worth knowing

- The title index does not reach every book. `add_book` overwrites the
  title's entry, so an earlier book with the same title is found by serial
  and by author but no longer by title. `TitlesIndexed` only requires that
  every title has an entry, and that the entry is a book with that title.
- A student's holdings are a Python list. The invariant proves that no
  serial occurs in it twice.
- Waitlists are not deduplicated. A student can join the same waitlist
  twice. A student can also join the waitlist of a book they hold. Neither
  the model nor its invariant excludes this.
- `return_book` sets the book available and then unavailable again when
  it promotes a student. The model writes only the final record.

## Left out

- `main` and the menu loop (lms.py:260-326): console input, `int()` parsing
  and re-prompting, with no state of their own.
- Printed messages and log text. Outcomes are the `Outcome` tags, and each
  log entry is an `Action` constructor carrying the ids, names and title its
  message shows.
- Python's `hash` (lms.py:100). It is randomised per process, so it is a
  parameter, and every property holds for any hash function.
- The `by != 'title'` branch of `get_sorted_books` (lms.py:233). It lists
  the in-order result unchanged. `Lms.SortedBooks` models the default call.
- Tree balance and running time.
- The display of availability in the search and listing methods. The model
  returns the book records, whose `available` field those messages print.
- Lms.ReturnBook has a branch for a dequeued student missing from the
  registry. Python cannot reach it, because the waitlist holds the student
  object itself and students are never removed. From a consistent state it
  is never taken (`LmsInvariants.Valid` keeps waitlists to registered ids),
  and the contract says nothing about it. The contract also states the
  effect on the catalogue only when the tree is a search tree.
- Lms.BorrowBook states its effect on the catalogue only when the tree is a
  search tree. Every reachable state has one (`LmsProperties.RunValid`).
- Lms.AddBook states its effect on the catalogue only when the tree is a
  search tree, for the same reason.
- Lms.SearchBySerial relates its result to the catalogue only when the tree
  is a search tree, for the same reason.
- Lms.Resolve states only soundness on its own.
  `LmsProperties.SearchByAuthorExact` gives the exact result for a
  consistent library.
- Queues.Enqueue states its effect for well-formed queues only, where the
  front is empty exactly when the rear is. Every queue built from
  `Queues.Empty` by enqueues and dequeues is well formed.
- Queues.Dequeue states that it keeps a queue well formed only for a
  well-formed queue, for the same reason.
- SearchTrees.Insert states its effect on the stored mapping for search
  trees only. Every tree built from a leaf by `Insert` is one.
