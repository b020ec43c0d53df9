/** The contract of a stable sort, and that it leaves one possible result. */
module StableSort {

  /** A total preorder: elements may tie. */
  ghost predicate Preorder<T(!new)>(le: (T, T) -> bool) {
    && (forall x, y :: le(x, y) || le(y, x))
    && (forall x, y, z :: le(x, y) && le(y, z) ==> le(x, z))
  }

  ghost predicate Ordered<T>(le: (T, T) -> bool, s: seq<T>) {
    forall i, j :: 0 <= i < j < |s| ==> le(s[i], s[j])
  }

  /** The elements of `s` that tie with `c`, in their order. */
  function Ties<T>(le: (T, T) -> bool, s: seq<T>, c: T): seq<T> {
    if s == [] then [] else Tie(le, s[0], c) + Ties(le, s[1..], c)
  }

  function Tie<T>(le: (T, T) -> bool, x: T, c: T): seq<T> { if le(x, c) && le(c, x) then [x] else [] }

  lemma TiesCons<T>(le: (T, T) -> bool, x: T, s: seq<T>, c: T)
    ensures Ties(le, [x] + s, c) == Tie(le, x, c) + Ties(le, s, c)
  {
    assert ([x] + s)[1..] == s;
  }

  /** Elements in strict order do not tie with the same element. */
  lemma TieOne<T(!new)>(le: (T, T) -> bool, x: T, y: T, c: T)
    requires Preorder(le) && !le(x, y)
    ensures Tie(le, x, c) == [] || Tie(le, y, c) == []
  {
  }

  function Insert<T>(le: (T, T) -> bool, x: T, s: seq<T>): seq<T> {
    if s == [] || le(x, s[0]) then [x] + s else [s[0]] + Insert(le, x, s[1..])
  }

  function Sort<T>(le: (T, T) -> bool, s: seq<T>): seq<T> {
    if s == [] then [] else Insert(le, s[0], Sort(le, s[1..]))
  }

  lemma {:induction false} InsertContents<T>(le: (T, T) -> bool, x: T, s: seq<T>)
    ensures multiset(Insert(le, x, s)) == multiset(s) + multiset{x}
  {
    if s != [] {
      assert s == [s[0]] + s[1..];
      InsertContents(le, x, s[1..]);
    }
  }

  /** Sorting only reorders. */
  lemma {:induction false} SortContents<T>(le: (T, T) -> bool, s: seq<T>)
    ensures multiset(Sort(le, s)) == multiset(s)
  {
    if s != [] {
      assert s == [s[0]] + s[1..];
      SortContents(le, s[1..]);
      InsertContents(le, s[0], Sort(le, s[1..]));
    }
  }

  lemma {:induction false} InsertOrdered<T(!new)>(le: (T, T) -> bool, x: T, s: seq<T>)
    requires Preorder(le) && Ordered(le, s)
    ensures Ordered(le, Insert(le, x, s))
  {
    if s != [] && !le(x, s[0]) {
      var rest := Insert(le, x, s[1..]);
      InsertOrdered(le, x, s[1..]);
      InsertContents(le, x, s[1..]);
      forall j | 0 <= j < |rest| ensures le(s[0], rest[j]) {
        assert rest[j] in multiset(rest);
      }
    } else if s != [] {
      forall j | 0 <= j < |s| ensures le(x, s[j]) {
        assert le(x, s[0]) && (j == 0 || le(s[0], s[j]));
      }
    }
  }

  lemma {:induction false} SortOrdered<T(!new)>(le: (T, T) -> bool, s: seq<T>)
    requires Preorder(le)
    ensures Ordered(le, Sort(le, s))
  {
    if s != [] {
      SortOrdered(le, s[1..]);
      InsertOrdered(le, s[0], Sort(le, s[1..]));
    }
  }

  lemma {:induction false} InsertTies<T(!new)>(le: (T, T) -> bool, x: T, s: seq<T>, c: T)
    requires Preorder(le)
    ensures Ties(le, Insert(le, x, s), c) == Tie(le, x, c) + Ties(le, s, c)
  {
    if s != [] && !le(x, s[0]) {
      InsertTies(le, x, s[1..], c);
      TiesCons(le, s[0], Insert(le, x, s[1..]), c);
      TieOne(le, x, s[0], c);
    } else {
      TiesCons(le, x, s, c);
    }
  }

  /** Elements that tie keep their order. */
  lemma {:induction false} SortStable<T(!new)>(le: (T, T) -> bool, s: seq<T>, c: T)
    requires Preorder(le)
    ensures Ties(le, Sort(le, s), c) == Ties(le, s, c)
  {
    if s != [] {
      SortStable(le, s[1..], c);
      InsertTies(le, s[0], Sort(le, s[1..]), c);
    }
  }

  lemma {:induction false} TiesMember<T(!new)>(le: (T, T) -> bool, s: seq<T>, c: T)
    requires Preorder(le) && c in s
    ensures Ties(le, s, c) != []
  {
    if s[0] != c {
      TiesMember(le, s[1..], c);
    }
  }

  lemma {:induction false} TiesAreMembers<T>(le: (T, T) -> bool, s: seq<T>, c: T)
    ensures forall x :: x in Ties(le, s, c) ==> x in s && le(x, c) && le(c, x)
  {
    if s != [] {
      TiesAreMembers(le, s[1..], c);
    }
  }

  /** The head of an ordered sequence with the same ties is below every element of the other. */
  lemma HeadBelow<T(!new)>(le: (T, T) -> bool, a: seq<T>, b: seq<T>)
    requires Preorder(le) && Ordered(le, a) && b != []
    requires forall c :: Ties(le, a, c) == Ties(le, b, c)
    ensures a != [] && le(a[0], b[0])
  {
    TiesMember(le, b, b[0]);
    TiesAreMembers(le, a, b[0]);
    var x := Ties(le, a, b[0])[0];
    assert x in a && le(x, b[0]);
    var k :| 0 <= k < |a| && a[k] == x;
    assert k == 0 || le(a[0], a[k]);
  }

  /** Order and stability leave one result: any stable sort returns this one. */
  lemma {:induction false} StableSortUnique<T(!new)>(le: (T, T) -> bool, a: seq<T>, b: seq<T>)
    requires Preorder(le) && Ordered(le, a) && Ordered(le, b)
    requires forall c :: Ties(le, a, c) == Ties(le, b, c)
    ensures a == b
  {
    if b != [] {
      HeadBelow(le, a, b);
      HeadBelow(le, b, a);
      assert Ties(le, a, a[0])[0] == a[0] && Ties(le, b, a[0])[0] == b[0];
      forall c ensures Ties(le, a[1..], c) == Ties(le, b[1..], c) {
        var h := Tie(le, a[0], c);
        assert Ties(le, a, c) == h + Ties(le, a[1..], c);
        assert Ties(le, b, c) == h + Ties(le, b[1..], c);
        assert Ties(le, a, c)[|h|..] == Ties(le, a[1..], c);
      }
      StableSortUnique(le, a[1..], b[1..]);
      assert a == [a[0]] + a[1..];
    } else if a != [] {
      HeadBelow(le, b, a);
    }
  }
}
