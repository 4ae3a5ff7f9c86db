/** The sort drop-down: `books.sort(cmp)` with a comparator chosen by the
    selected value.  `Array.prototype.sort` is stable, and so is the insertion
    sort below (`SortBooksStable`). */
module Sorting {
  import opened Books

  /** The values of the sort drop-down; any other value leaves the
      comparator returning `undefined`, which the sort reads as "equal". */
  datatype SortKey = ByTitle | ByYear | ByRating | Unordered

  function KeyOf(value: string): (k: SortKey)
    ensures k == ByTitle <==> value == "title"
    ensures k == ByYear <==> value == "year"
    ensures k == ByRating <==> value == "rating"
  {
    if value == "title" then ByTitle
    else if value == "year" then ByYear
    else if value == "rating" then ByRating
    else Unordered
  }

  // ------------------------------------------------------ string order

  /** Code-point lexicographic comparison, standing for `localeCompare`:
      negative, zero or positive. */
  function CompareStrings(a: string, b: string): (r: int)
    ensures -1 <= r <= 1
  {
    if a == [] && b == [] then 0
    else if a == [] then -1
    else if b == [] then 1
    else if a[0] < b[0] then -1
    else if a[0] > b[0] then 1
    else CompareStrings(a[1..], b[1..])
  }

  /** Reference definition of "`a` comes no later than `b`": `a` is a prefix
      of `b`, or they first differ at an index where `a` has the smaller
      character. */
  predicate LexNoLater(a: string, b: string) {
    a <= b || exists k :: 0 <= k < |a| && k < |b| && a[..k] == b[..k] && a[k] < b[k]
  }

  /** Two strings with the same first character compare like their tails. */
  lemma LexNoLaterTail(a: string, b: string)
    requires a != [] && b != [] && a[0] == b[0]
    ensures LexNoLater(a, b) <==> LexNoLater(a[1..], b[1..])
  {
    if LexNoLater(a[1..], b[1..]) {
      LexTailToWhole(a, b);
    }
    if LexNoLater(a, b) {
      LexWholeToTail(a, b);
    }
  }

  lemma LexTailToWhole(a: string, b: string)
    requires a != [] && b != [] && a[0] == b[0]
    requires LexNoLater(a[1..], b[1..])
    ensures LexNoLater(a, b)
  {
    var a', b' := a[1..], b[1..];
    if a' <= b' {
      assert a == [a[0]] + a' && b == [b[0]] + b';
      assert a <= b;
    } else {
      var k :| 0 <= k < |a'| && k < |b'| && a'[..k] == b'[..k] && a'[k] < b'[k];
      assert a[..k + 1] == [a[0]] + a'[..k];
      assert b[..k + 1] == [b[0]] + b'[..k];
      assert a[k + 1] < b[k + 1];
    }
  }

  lemma LexWholeToTail(a: string, b: string)
    requires a != [] && b != [] && a[0] == b[0]
    requires LexNoLater(a, b)
    ensures LexNoLater(a[1..], b[1..])
  {
    var a', b' := a[1..], b[1..];
    if a <= b {
      assert a' == b[..|a|][1..];
      assert a' <= b';
    } else {
      var k :| 0 <= k < |a| && k < |b| && a[..k] == b[..k] && a[k] < b[k];
      assert k > 0;
      assert a'[..k - 1] == a[..k][1..];
      assert b'[..k - 1] == b[..k][1..];
      assert a'[k - 1] < b'[k - 1];
    }
  }

  /** Strings whose first characters differ are ordered by those. */
  lemma LexNoLaterHead(a: string, b: string)
    requires a != [] && b != [] && a[0] != b[0]
    ensures LexNoLater(a, b) <==> a[0] < b[0]
  {
    if a[0] < b[0] {
      assert a[..0] == b[..0];
    } else {
      assert !(a <= b);
      if exists k :: 0 <= k < |a| && k < |b| && a[..k] == b[..k] && a[k] < b[k] {
        var k :| 0 <= k < |a| && k < |b| && a[..k] == b[..k] && a[k] < b[k];
        assert k > 0 ==> a[..k][0] == b[..k][0];
      }
    }
  }

  lemma {:induction false} CompareStringsMeaning(a: string, b: string)
    ensures CompareStrings(a, b) <= 0 <==> LexNoLater(a, b)
  {
    if a == [] {
      assert a <= b;
    } else if b == [] {
      assert !(a <= b);
    } else if a[0] != b[0] {
      LexNoLaterHead(a, b);
    } else {
      CompareStringsMeaning(a[1..], b[1..]);
      LexNoLaterTail(a, b);
    }
  }

  lemma {:induction false} CompareStringsAntisymmetric(a: string, b: string)
    ensures CompareStrings(a, b) == -CompareStrings(b, a)
  {
    if a != [] && b != [] && a[0] == b[0] {
      CompareStringsAntisymmetric(a[1..], b[1..]);
    }
  }

  lemma {:induction false} CompareStringsTransitive(a: string, b: string, c: string)
    requires CompareStrings(a, b) <= 0 && CompareStrings(b, c) <= 0
    ensures CompareStrings(a, c) <= 0
  {
    if a != [] && b != [] && c != [] && a[0] == b[0] == c[0] {
      CompareStringsTransitive(a[1..], b[1..], c[1..]);
    }
  }

  // ------------------------------------------------------- comparator

  /** The comparator passed to `books.sort`: `a` may come first exactly when
      its title is lexicographically no later, its year no later, or its
      rating no lower, as the key says; an unknown key calls every pair
      equal. */
  function Compare(key: SortKey, a: Book, b: Book): (r: int)
    ensures key == ByTitle ==> (r <= 0 <==> LexNoLater(a.title, b.title))
    ensures key == ByYear ==> (r <= 0 <==> a.year <= b.year) && (r == 0 <==> a.year == b.year)
    ensures key == ByRating ==> (r <= 0 <==> a.rating >= b.rating) && (r == 0 <==> a.rating == b.rating)
    ensures key == Unordered ==> r == 0
  {
    match key
    case ByTitle =>
      CompareStringsMeaning(a.title, b.title);
      CompareStrings(a.title, b.title)
    case ByYear => a.year - b.year
    case ByRating => b.rating - a.rating
    case Unordered => 0
  }

  /** `a` may stand before `b` in the sorted catalogue. */
  predicate Precedes(key: SortKey, a: Book, b: Book) {
    Compare(key, a, b) <= 0
  }

  lemma PrecedesTotal(key: SortKey, a: Book, b: Book)
    ensures Precedes(key, a, b) || Precedes(key, b, a)
  {
    if key == ByTitle {
      CompareStringsAntisymmetric(a.title, b.title);
    }
  }

  lemma PrecedesTransitive(key: SortKey, a: Book, b: Book, c: Book)
    requires Precedes(key, a, b) && Precedes(key, b, c)
    ensures Precedes(key, a, c)
  {
    if key == ByTitle {
      CompareStringsTransitive(a.title, b.title, c.title);
    }
  }

  predicate Sorted(key: SortKey, s: seq<Book>) {
    forall i, j :: 0 <= i < j < |s| ==> Precedes(key, s[i], s[j])
  }

  // ----------------------------------------------------------- sorting

  /** Place `x` before the first element it may precede. */
  function Insert(key: SortKey, x: Book, s: seq<Book>): (r: seq<Book>)
    ensures |r| == |s| + 1
    ensures multiset(r) == multiset(s) + multiset{x}
  {
    if s == [] then [x]
    else if Precedes(key, x, s[0]) then [x] + s
    else
      assert s == [s[0]] + s[1..];
      [s[0]] + Insert(key, x, s[1..])
  }

  /** An element that may precede everything in a sorted sequence can be put
      in front of it. */
  lemma SortedCons(key: SortKey, y: Book, t: seq<Book>)
    requires Sorted(key, t)
    requires forall k :: 0 <= k < |t| ==> Precedes(key, y, t[k])
    ensures Sorted(key, [y] + t)
  {
    var r := [y] + t;
    forall i, j | 0 <= i < j < |r| ensures Precedes(key, r[i], r[j]) {
      assert r[j] == t[j - 1];
      if i > 0 {
        assert r[i] == t[i - 1];
      }
    }
  }

  lemma SortedTail(key: SortKey, s: seq<Book>)
    requires s != [] && Sorted(key, s)
    ensures Sorted(key, s[1..])
    ensures forall k :: 0 <= k < |s[1..]| ==> Precedes(key, s[0], s[1..][k])
  {
    forall i, j | 0 <= i < j < |s[1..]| ensures Precedes(key, s[1..][i], s[1..][j]) {
      assert s[1..][i] == s[i + 1] && s[1..][j] == s[j + 1];
    }
    forall k | 0 <= k < |s[1..]| ensures Precedes(key, s[0], s[1..][k]) {
      assert s[1..][k] == s[k + 1];
    }
  }

  lemma {:induction false} InsertKeepsSorted(key: SortKey, x: Book, s: seq<Book>)
    requires Sorted(key, s)
    ensures Sorted(key, Insert(key, x, s))
  {
    if s == [] {
      assert Insert(key, x, s) == [x];
    } else if Precedes(key, x, s[0]) {
      forall j | 0 <= j < |s| ensures Precedes(key, x, s[j]) {
        if j > 0 {
          PrecedesTransitive(key, x, s[0], s[j]);
        }
      }
      SortedCons(key, x, s);
    } else {
      PrecedesTotal(key, x, s[0]);
      SortedTail(key, s);
      var t := Insert(key, x, s[1..]);
      InsertKeepsSorted(key, x, s[1..]);
      forall k | 0 <= k < |t| ensures Precedes(key, s[0], t[k]) {
        assert t[k] in multiset(t);
        if t[k] != x {
          assert t[k] in multiset(s[1..]);
          var j :| 0 <= j < |s[1..]| && s[1..][j] == t[k];
        }
      }
      SortedCons(key, s[0], t);
    }
  }

  /** `books.sort(cmp)`: a stable sort of the catalogue by `key`. */
  function SortBooks(key: SortKey, s: seq<Book>): (r: seq<Book>)
    ensures |r| == |s| && multiset(r) == multiset(s)
    ensures Sorted(key, r)
    ensures key == ByTitle ==> forall i, j :: 0 <= i < j < |r| ==> CompareStrings(r[i].title, r[j].title) <= 0
    ensures key == ByYear ==> forall i, j :: 0 <= i < j < |r| ==> r[i].year <= r[j].year
    ensures key == ByRating ==> forall i, j :: 0 <= i < j < |r| ==> r[i].rating >= r[j].rating
  {
    if s == [] then []
    else
      assert s == [s[0]] + s[1..];
      var t := SortBooks(key, s[1..]);
      InsertKeepsSorted(key, s[0], t);
      Insert(key, s[0], t)
  }

  /** `a` and `b` rank alike under `key`: the comparator calls them equal. */
  predicate SameRank(key: SortKey, a: Book, b: Book) {
    Precedes(key, a, b) && Precedes(key, b, a)
  }

  /** The books of `s` that rank alike with `x`, in their order in `s`:
      `Filter(s, b => SameRank(key, b, x))`, unfolded. */
  function RankClass(key: SortKey, x: Book, s: seq<Book>): seq<Book> {
    if s == [] then [] else (if SameRank(key, s[0], x) then [s[0]] else []) + RankClass(key, x, s[1..])
  }

  lemma RankClassCons(key: SortKey, x: Book, h: Book, t: seq<Book>)
    ensures RankClass(key, x, [h] + t) == RankClass(key, x, [h]) + RankClass(key, x, t)
  {
    assert ([h] + t)[1..] == t;
    assert [h][1..] == [];
  }

  /** Inserting `y` adds it to its own rank class, at the front, and leaves
      every other class as it was. */
  lemma {:induction false} InsertRankClass(key: SortKey, x: Book, y: Book, t: seq<Book>)
    ensures RankClass(key, x, Insert(key, y, t)) == RankClass(key, x, [y]) + RankClass(key, x, t)
  {
    if t == [] {
      assert [y] + t == [y];
      RankClassCons(key, x, y, t);
    } else if Precedes(key, y, t[0]) {
      RankClassCons(key, x, y, t);
    } else {
      InsertRankClass(key, x, y, t[1..]);
      InsertPastHead(key, y, t);
      ClassPastHead(key, x, y, t[0], t[1..], Insert(key, y, t[1..]));
    }
  }

  lemma InsertPastHead(key: SortKey, y: Book, t: seq<Book>)
    requires t != [] && !Precedes(key, y, t[0])
    ensures Insert(key, y, t) == [t[0]] + Insert(key, y, t[1..])
    ensures t == [t[0]] + t[1..]
  {
  }

  /** The step of `InsertRankClass` where `y` goes past the head `h`: a head
      that `y` may not precede cannot rank alike with `y`. */
  lemma ClassPastHead(key: SortKey, x: Book, y: Book, h: Book, t: seq<Book>, u: seq<Book>)
    requires !Precedes(key, y, h)
    requires RankClass(key, x, u) == RankClass(key, x, [y]) + RankClass(key, x, t)
    ensures RankClass(key, x, [h] + u) == RankClass(key, x, [y]) + RankClass(key, x, [h] + t)
  {
    RankClassCons(key, x, h, u);
    RankClassCons(key, x, h, t);
    if SameRank(key, h, x) {
      AloneInOtherClass(key, x, y, h);
    } else {
      AloneInOtherClass(key, x, h, h);
    }
    CommuteWithEmpty(RankClass(key, x, [h]), RankClass(key, x, [y]), RankClass(key, x, t));
  }

  /** Two sequences of which one is empty commute in front of a third. */
  lemma CommuteWithEmpty<T>(a: seq<T>, b: seq<T>, c: seq<T>)
    requires a == [] || b == []
    ensures a + (b + c) == b + (a + c)
  {
    if a == [] {
      assert a + (b + c) == b + c && a + c == c;
    } else {
      assert b + c == c && b + (a + c) == a + c;
    }
  }

  /** A one-book list contributes nothing to a class its book is not in; a
      book `y` may not precede cannot share a class with `h`. */
  lemma AloneInOtherClass(key: SortKey, x: Book, y: Book, h: Book)
    requires !SameRank(key, y, x) || (SameRank(key, h, x) && !Precedes(key, y, h))
    ensures RankClass(key, x, [y]) == []
  {
    if SameRank(key, y, x) {
      PrecedesTransitive(key, y, x, h);
    }
    assert [y][1..] == [];
  }

  /** Stability: the books that rank alike with any `x` keep, in the sorted
      catalogue, the order they had before. */
  lemma {:induction false} SortBooksStable(key: SortKey, x: Book, s: seq<Book>)
    ensures RankClass(key, x, SortBooks(key, s)) == RankClass(key, x, s)
  {
    if s != [] {
      SortBooksStable(key, x, s[1..]);
      SortBooksStep(key, s);
      InsertRankClass(key, x, s[0], SortBooks(key, s[1..]));
      RankClassCons(key, x, s[0], s[1..]);
    }
  }

  /** One step of the sort: the head is inserted into the sorted tail. */
  lemma SortBooksStep(key: SortKey, s: seq<Book>)
    requires s != []
    ensures SortBooks(key, s) == Insert(key, s[0], SortBooks(key, s[1..]))
    ensures s == [s[0]] + s[1..]
  {
  }

  /** Sorted by title means in the reference lexicographic order. */
  lemma SortByTitleIsLexicographic(s: seq<Book>, i: nat, j: nat)
    requires i < j < |s|
    ensures LexNoLater(SortBooks(ByTitle, s)[i].title, SortBooks(ByTitle, s)[j].title)
  {
    var r := SortBooks(ByTitle, s);
    CompareStringsMeaning(r[i].title, r[j].title);
  }

  /** A catalogue already in order is left as it is; in particular sorting
      twice by the same key is sorting once, and an unknown key changes
      nothing. */
  lemma {:induction false} SortSortedIsIdentity(key: SortKey, s: seq<Book>)
    requires Sorted(key, s)
    ensures SortBooks(key, s) == s
  {
    if s != [] {
      SortedTail(key, s);
      SortSortedIsIdentity(key, s[1..]);
      if |s| > 1 {
        assert Precedes(key, s[0], s[1..][0]);
      }
      assert s == [s[0]] + s[1..];
    }
  }

  lemma SortIdempotent(key: SortKey, s: seq<Book>)
    ensures SortBooks(key, SortBooks(key, s)) == SortBooks(key, s)
  {
    SortSortedIsIdentity(key, SortBooks(key, s));
  }

  lemma SortUnorderedKeepsOrder(s: seq<Book>)
    ensures SortBooks(Unordered, s) == s
  {
    SortSortedIsIdentity(Unordered, s);
  }
}
