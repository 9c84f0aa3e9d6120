/** The order `loadEntries` sorts file names by. The comparator
    `(a, b) => b.name.localeCompare(a.name)` puts names in descending order of
    `localeCompare`; this model takes `localeCompare` to be plain
    lexicographic order on characters, which is a total order, so the sorted
    listing is unique whatever the sorting algorithm. */
module Order {

  /** `a` sorts no later than `b` in ascending lexicographic order: `a` is a
      prefix of `b`, or at the first position where they differ `a` has the
      smaller character. */
  predicate LexLe(a: string, b: string) {
    a == [] || (b != [] && (a[0] < b[0] || (a[0] == b[0] && LexLe(a[1..], b[1..]))))
  }

  lemma {:induction false} LexLeReflexive(a: string)
    ensures LexLe(a, a)
  {
    if a != [] {
      LexLeReflexive(a[1..]);
    }
  }

  lemma {:induction false} LexLeAntisymmetric(a: string, b: string)
    requires LexLe(a, b) && LexLe(b, a)
    ensures a == b
  {
    if a != [] && b != [] {
      LexLeAntisymmetric(a[1..], b[1..]);
      assert a == [a[0]] + a[1..];
      assert b == [b[0]] + b[1..];
    }
  }

  lemma {:induction false} LexLeTransitive(a: string, b: string, c: string)
    requires LexLe(a, b) && LexLe(b, c)
    ensures LexLe(a, c)
  {
    if a != [] && b != [] && c != [] && a[0] == b[0] == c[0] {
      LexLeTransitive(a[1..], b[1..], c[1..]);
    }
  }

  lemma {:induction false} LexLeTotal(a: string, b: string)
    ensures LexLe(a, b) || LexLe(b, a)
  {
    if a != [] && b != [] && a[0] == b[0] {
      LexLeTotal(a[1..], b[1..]);
    }
  }

  /** The order is decided at the first position where the strings differ. */
  lemma {:induction false} LexLeAtFirstDifference(a: string, b: string, i: nat)
    requires i < |a| && i < |b| && a[..i] == b[..i] && a[i] < b[i]
    ensures LexLe(a, b)
  {
    if i > 0 {
      assert a[0] == a[..i][0] == b[..i][0] == b[0];
      assert a[1..][..i - 1] == a[..i][1..] == b[..i][1..] == b[1..][..i - 1];
      LexLeAtFirstDifference(a[1..], b[1..], i - 1);
    }
  }

  /** Descending order, as the comparator `b.localeCompare(a)` produces:
      every name is at least as large as every name after it. */
  ghost predicate SortedDesc(s: seq<string>) {
    forall i, j :: 0 <= i < j < |s| ==> LexLe(s[j], s[i])
  }

  /** Every element of `s` is at most `m`. */
  ghost predicate AllAtMost(s: seq<string>, m: string) {
    forall x :: x in s ==> LexLe(x, m)
  }

  /** Inserts `x` into a descending sequence, before the first element that
      is not larger than it. */
  function Insert(x: string, s: seq<string>): (r: seq<string>)
    requires SortedDesc(s)
    ensures SortedDesc(r)
    ensures multiset(r) == multiset(s) + multiset{x}
    ensures forall y :: y in r <==> y == x || y in s
  {
    if s == [] then [x]
    else if LexLe(s[0], x) then
      InsertAtFront(x, s);
      [x] + s
    else
      LexLeTotal(s[0], x);
      var rest := Insert(x, s[1..]);
      HeadIsMax(s);
      assert s == [s[0]] + s[1..];
      ConsSorted(s[0], rest);
      [s[0]] + rest
  }

  lemma InsertAtFront(x: string, s: seq<string>)
    requires SortedDesc(s) && s != [] && LexLe(s[0], x)
    ensures SortedDesc([x] + s)
  {
    HeadIsMax(s);
    forall j | 0 <= j < |s|
      ensures LexLe(s[j], x)
    {
      LexLeTransitive(s[j], s[0], x);
    }
    ConsSorted(x, s);
  }

  /** The head of a descending sequence bounds every element. */
  lemma HeadIsMax(s: seq<string>)
    requires SortedDesc(s) && s != []
    ensures AllAtMost(s, s[0])
  {
    forall x | x in s
      ensures LexLe(x, s[0])
    {
      var j :| 0 <= j < |s| && s[j] == x;
      if j == 0 {
        LexLeReflexive(x);
      }
    }
  }

  lemma ConsSorted(x: string, s: seq<string>)
    requires SortedDesc(s) && AllAtMost(s, x)
    ensures SortedDesc([x] + s)
  {
    var r := [x] + s;
    forall i, j | 0 <= i < j < |r|
      ensures LexLe(r[j], r[i])
    {
      if i > 0 {
        assert r[i] == s[i - 1] && r[j] == s[j - 1];
      } else {
        assert r[j] == s[j - 1] && r[j] in s;
      }
    }
  }

  /** Insertion sort into descending order. */
  function SortDesc(s: seq<string>): (r: seq<string>)
    ensures SortedDesc(r)
    ensures multiset(r) == multiset(s)
  {
    if s == [] then []
    else
      assert s == [s[0]] + s[1..];
      Insert(s[0], SortDesc(s[1..]))
  }

  /** A total order leaves no freedom: two descending sequences with the same
      elements are equal. */
  lemma {:induction false} SortedDescUnique(a: seq<string>, b: seq<string>)
    requires SortedDesc(a) && SortedDesc(b)
    requires multiset(a) == multiset(b)
    ensures a == b
  {
    if a != [] {
      assert a[0] in multiset(b);
      assert b != [];
      assert b[0] in multiset(a);
      HeadIsMax(a);
      HeadIsMax(b);
      assert a[0] in b && b[0] in a;
      LexLeAntisymmetric(a[0], b[0]);
      assert a == [a[0]] + a[1..];
      assert b == [b[0]] + b[1..];
      assert multiset(a) == multiset{a[0]} + multiset(a[1..]);
      assert multiset(b) == multiset{a[0]} + multiset(b[1..]);
      assert multiset(a[1..]) == multiset(a) - multiset{a[0]} == multiset(b[1..]);
      SortedDescUnique(a[1..], b[1..]);
    } else {
      assert |b| == |multiset(b)| == 0;
    }
  }
}
