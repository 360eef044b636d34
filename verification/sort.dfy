/**
 * The title sort of `get_sorted_books`.  The list sort it relies on is
 * stable; it is modelled as a stable insertion sort keyed by title.
 */
module TitleSort {
  import opened Records
  import StringOrder

  /** Titles never decrease along the sequence. */
  ghost predicate TitleOrdered(s: seq<Book>)
  {
    forall i, j :: 0 <= i < j < |s| ==> !StringOrder.Less(s[j].title, s[i].title)
  }

  /** The listing order of a stable title sort over a serial-ordered list: by title, then by serial. */
  predicate Before(a: Book, b: Book)
  {
    StringOrder.Less(a.title, b.title) || (a.title == b.title && a.serial < b.serial)
  }

  ghost predicate StrictlyOrdered(s: seq<Book>)
  {
    forall i, j :: 0 <= i < j < |s| ==> Before(s[i], s[j])
  }

  ghost predicate SerialAscending(s: seq<Book>)
  {
    forall i, j :: 0 <= i < j < |s| ==> s[i].serial < s[j].serial
  }

  /** Places `b` ahead of the first entry whose title is not smaller than its own. */
  function InsertByTitle(b: Book, s: seq<Book>): (r: seq<Book>)
    ensures multiset(r) == multiset(s) + multiset{b}
  {
    if |s| == 0 then [b]
    else if !StringOrder.Less(s[0].title, b.title) then [b] + s
    else
      assert s == [s[0]] + s[1..];
      [s[0]] + InsertByTitle(b, s[1..])
  }

  lemma {:induction false} InsertKeepsTitleOrder(b: Book, s: seq<Book>)
    requires TitleOrdered(s)
    ensures TitleOrdered(InsertByTitle(b, s))
  {
    var r := InsertByTitle(b, s);
    if |s| == 0 {
    } else if !StringOrder.Less(s[0].title, b.title) {
      forall i, j | 0 <= i < j < |r| ensures !StringOrder.Less(r[j].title, r[i].title) {
        if i == 0 && j > 1 {
          StringOrder.NotLessTransitive(r[j].title, s[0].title, b.title);
        }
      }
    } else {
      assert s == [s[0]] + s[1..];
      var rest := InsertByTitle(b, s[1..]);
      InsertKeepsTitleOrder(b, s[1..]);
      HeadStaysFirst(b, s);
      forall i, j | 0 <= i < j < |r| ensures !StringOrder.Less(r[j].title, r[i].title) {
        assert r[j] == rest[j - 1];
        if i > 0 {
          assert r[i] == rest[i - 1];
        }
      }
    }
  }

  /** When `b` goes behind the head of a title-ordered list, nothing after the head sorts before it. */
  lemma HeadStaysFirst(b: Book, s: seq<Book>)
    requires TitleOrdered(s) && |s| > 0 && StringOrder.Less(s[0].title, b.title)
    ensures forall k :: 0 <= k < |InsertByTitle(b, s[1..])| ==> !StringOrder.Less(InsertByTitle(b, s[1..])[k].title, s[0].title)
  {
    var rest := InsertByTitle(b, s[1..]);
    StringOrder.Asymmetric(s[0].title, b.title);
    forall k | 0 <= k < |rest| ensures !StringOrder.Less(rest[k].title, s[0].title) {
      assert rest[k] in multiset(rest);
      if rest[k] != b {
        assert rest[k] in multiset(s[1..]);
        var m :| 0 <= m < |s[1..]| && s[1..][m] == rest[k];
        assert s[m + 1] == rest[k];
      }
    }
  }

  /** `books.sort(key=lambda b: b.title)`. */
  function SortByTitle(s: seq<Book>): (r: seq<Book>)
    ensures multiset(r) == multiset(s)
    ensures TitleOrdered(r)
  {
    if |s| == 0 then []
    else
      assert s == [s[0]] + s[1..];
      InsertKeepsTitleOrder(s[0], SortByTitle(s[1..]));
      InsertByTitle(s[0], SortByTitle(s[1..]))
  }

  lemma {:induction false} InsertKeepsStrictOrder(b: Book, s: seq<Book>)
    requires StrictlyOrdered(s)
    requires forall i :: 0 <= i < |s| ==> b.serial < s[i].serial
    ensures StrictlyOrdered(InsertByTitle(b, s))
  {
    var r := InsertByTitle(b, s);
    if |s| == 0 {
    } else if !StringOrder.Less(s[0].title, b.title) {
      forall i, j | 0 <= i < j < |r| ensures Before(r[i], r[j]) {
        if i == 0 {
          StringOrder.Total(s[0].title, b.title);
          assert Before(b, s[0]);
          if j > 1 {
            BeforeTransitive(b, s[0], r[j]);
          }
        }
      }
    } else {
      assert s == [s[0]] + s[1..];
      var rest := InsertByTitle(b, s[1..]);
      forall i, j | 0 <= i < j < |s| - 1 ensures Before(s[1..][i], s[1..][j]) {
        assert s[1..][i] == s[i + 1] && s[1..][j] == s[j + 1];
      }
      forall i | 0 <= i < |s| - 1 ensures b.serial < s[1..][i].serial {
        assert s[1..][i] == s[i + 1];
      }
      InsertKeepsStrictOrder(b, s[1..]);
      HeadStaysBefore(b, s);
      forall i, j | 0 <= i < j < |r| ensures Before(r[i], r[j]) {
        assert r[j] == rest[j - 1];
        if i > 0 {
          assert r[i] == rest[i - 1];
        }
      }
    }
  }

  /** When `b` goes behind the head of a strictly ordered list, the head still comes before everything after it. */
  lemma HeadStaysBefore(b: Book, s: seq<Book>)
    requires StrictlyOrdered(s) && |s| > 0 && StringOrder.Less(s[0].title, b.title)
    ensures forall k :: 0 <= k < |InsertByTitle(b, s[1..])| ==> Before(s[0], InsertByTitle(b, s[1..])[k])
  {
    var rest := InsertByTitle(b, s[1..]);
    forall k | 0 <= k < |rest| ensures Before(s[0], rest[k]) {
      assert rest[k] in multiset(rest);
      if rest[k] != b {
        assert rest[k] in multiset(s[1..]);
        var m :| 0 <= m < |s[1..]| && s[1..][m] == rest[k];
        assert s[m + 1] == rest[k];
      }
    }
  }

  lemma BeforeTransitive(a: Book, b: Book, c: Book)
    requires Before(a, b) && Before(b, c)
    ensures Before(a, c)
  {
    if StringOrder.Less(a.title, b.title) && StringOrder.Less(b.title, c.title) {
      StringOrder.Transitive(a.title, b.title, c.title);
    }
  }

  /**
   * Stability: sorting a serial-ascending list by title keeps books with equal
   * titles in serial order, so the result is ordered by title and then serial.
   */
  lemma {:induction false} SortIsStable(s: seq<Book>)
    requires SerialAscending(s)
    ensures StrictlyOrdered(SortByTitle(s))
  {
    if |s| > 0 {
      SortIsStable(s[1..]);
      var t := SortByTitle(s[1..]);
      forall i | 0 <= i < |t| ensures s[0].serial < t[i].serial {
        assert t[i] in multiset(s[1..]);
        var k :| 0 <= k < |s[1..]| && s[1..][k] == t[i];
        assert s[1..][k] == s[k + 1];
      }
      InsertKeepsStrictOrder(s[0], t);
    }
  }
}
