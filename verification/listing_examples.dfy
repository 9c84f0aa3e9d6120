/** Worked listings for concrete directory contents. */
module ListingExamples {
  import opened Text
  import opened Order
  import opened Garden

  /** Names not ending in `.html` are dropped and the rest come out in
      descending order. */
  lemma ExampleFilterAndSort()
    ensures Listing(["a.html", "notes.txt", "b.html"]) == ["b.html", "a.html"]
    ensures |LoadEntries(Ok(["a.html", "notes.txt", "b.html"]))| == 2
  {
    var names := ["a.html", "notes.txt", "b.html"];
    var t := ["b.html", "a.html"];
    assert LexLe("a.html", "b.html");
    assert SortedDesc(t);
    assert EndsWith("a.html", HtmlExtension) && EndsWith("b.html", HtmlExtension);
    assert !EndsWith("notes.txt", HtmlExtension);
    assert multiset(names) == multiset{"a.html", "notes.txt", "b.html"};
    assert forall n :: multiset(t)[n] == if EndsWith(n, HtmlExtension) then multiset(names)[n] else 0;
    ListingCharacterised(names, t);
  }

  /** Two `.html` names in ascending order come out swapped. */
  lemma TwoNamesSwapped(older: string, newer: string)
    requires EndsWith(older, HtmlExtension) && EndsWith(newer, HtmlExtension)
    requires LexLe(older, newer)
    ensures Listing([older, newer]) == [newer, older]
  {
    var names, t := [older, newer], [newer, older];
    assert SortedDesc(t);
    assert multiset(names) == multiset(t);
    forall n | multiset(t)[n] > 0
      ensures EndsWith(n, HtmlExtension)
    {
      assert n in t;
    }
    ListingCharacterised(names, t);
  }

  lemma DatedNamesOrdered()
    ensures LexLe("2025-01-01-a.html", "2025-06-01-b.html")
  {
    var a, b := "2025-01-01-a.html", "2025-06-01-b.html";
    assert a[..6] == "2025-0" == b[..6];
    LexLeAtFirstDifference(a, b, 6);
  }

  /** Zero-padded date prefixes make the descending name order newest
      first. */
  lemma ExampleNewestFirst()
    ensures Listing(["2025-01-01-a.html", "2025-06-01-b.html"]) == ["2025-06-01-b.html", "2025-01-01-a.html"]
  {
    DatedNamesOrdered();
    EndsWithAppend("2025-01-01-a", HtmlExtension);
    EndsWithAppend("2025-06-01-b", HtmlExtension);
    TwoNamesSwapped("2025-01-01-a.html", "2025-06-01-b.html");
  }
}
