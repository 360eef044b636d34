/** The action log of lms.py: a list used as a stack, read back newest first. */
module Stacks {
  import opened Wrappers

  /** `items` holds the pushed entries oldest first, as the Python list does. */
  datatype Stack<T> = Stack(items: seq<T>)

  function Empty<T>(): (s: Stack<T>)
    ensures GetAll(s) == []
  {
    Stack([])
  }

  /** `push`. */
  function Push<T>(s: Stack<T>, x: T): Stack<T>
  {
    Stack(s.items + [x])
  }

  /** `pop`: the newest entry leaves; an empty stack yields None. */
  function Pop<T>(s: Stack<T>): (r: (Option<T>, Stack<T>))
    ensures IsEmpty(s) ==> r == (None, s)
    ensures !IsEmpty(s) ==> r.0 == Some(GetAll(s)[0]) && GetAll(r.1) == GetAll(s)[1..]
  {
    if IsEmpty(s) then (None, s)
    else
      ReverseSlice(s.items, |s.items| - 1);
      (Some(s.items[|s.items| - 1]), Stack(s.items[..|s.items| - 1]))
  }

  /** `is_empty`: nothing left to read back. */
  function IsEmpty<T>(s: Stack<T>): (b: bool)
    ensures b <==> GetAll(s) == []
  {
    |s.items| == 0
  }

  /** The items in reverse order. */
  function Reverse<T>(xs: seq<T>): (r: seq<T>)
    ensures |r| == |xs|
    ensures forall i :: 0 <= i < |xs| ==> r[i] == xs[|xs| - 1 - i]
  {
    if |xs| == 0 then [] else [xs[|xs| - 1]] + Reverse(xs[..|xs| - 1])
  }

  lemma {:induction false} ReverseSlice<T>(xs: seq<T>, n: nat)
    requires n <= |xs|
    ensures Reverse(xs[..n]) == Reverse(xs)[|xs| - n..]
  {
    var a := Reverse(xs[..n]);
    var b := Reverse(xs)[|xs| - n..];
    forall i | 0 <= i < n ensures a[i] == b[i] {
      assert a[i] == xs[n - 1 - i];
    }
  }

  /** `get_all`: every entry, newest first.  The stack itself is a value and is left as it was. */
  function GetAll<T>(s: Stack<T>): (r: seq<T>)
    ensures |r| == |s.items|
    ensures forall i :: 0 <= i < |r| ==> r[i] == s.items[|s.items| - 1 - i]
  {
    Reverse(s.items)
  }

  /** Pushes every item of `xs`, in order. */
  function PushAll<T>(s: Stack<T>, xs: seq<T>): Stack<T>
    decreases |xs|
  {
    if |xs| == 0 then s else PushAll(Push(s, xs[0]), xs[1..])
  }

  /** A push puts its entry at the head of the newest-first listing and keeps the rest behind it. */
  lemma {:induction false} GetAllPush<T>(s: Stack<T>, x: T)
    ensures GetAll(Push(s, x)) == [x] + GetAll(s)
  {
    var r := GetAll(Push(s, x));
    assert r[0] == x;
    assert r[1..] == GetAll(s);
  }

  /** Pop undoes push. */
  lemma PopPush<T>(s: Stack<T>, x: T)
    ensures Pop(Push(s, x)) == (Some(x), s)
  {
    assert (s.items + [x])[..|s.items|] == s.items;
  }

  /** Entries pushed in the order O1, O2, ..., On are read back On, ..., O2, O1, ahead of older entries. */
  lemma {:induction false} GetAllPushAll<T>(s: Stack<T>, xs: seq<T>)
    ensures GetAll(PushAll(s, xs)) == Reverse(xs) + GetAll(s)
    decreases |xs|
  {
    if |xs| == 0 {
      assert Reverse(xs) == [];
    } else {
      GetAllPushAll(Push(s, xs[0]), xs[1..]);
      GetAllPush(s, xs[0]);
      var a := Reverse(xs);
      var b := Reverse(xs[1..]) + [xs[0]];
      assert |a| == |b|;
      forall i | 0 <= i < |a| ensures a[i] == b[i] {
        if i < |xs| - 1 {
          assert b[i] == Reverse(xs[1..])[i] == xs[1..][|xs| - 2 - i];
        }
      }
      assert a == b;
    }
  }
}
