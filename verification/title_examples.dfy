/** Worked titles for concrete file names, each derived step by step:
    the name without its first `.html`, then with spaces for hyphens, then
    with its word starts upper-cased. */
module TitleExamples {
  import opened Text
  import opened Garden

  lemma FormatTitleSteps(filename: string, stem: string, spaced: string, title: string)
    requires RemoveFirst(filename, HtmlExtension) == stem
    requires ReplaceChar(stem, '-', ' ') == spaced
    requires CapitalizeWords(spaced) == title
    ensures FormatTitle(filename) == title
  {
  }

  /** A candidate title that agrees with `\b\w` upper-casing at every index
      is the capitalised string. */
  lemma CapitalizedFromStarts(s: string, t: string)
    requires |t| == |s|
    requires forall k :: 0 <= k < |s| ==> t[k] == if StartsWord(s, k) then ToUpper(s[k]) else s[k]
    ensures CapitalizeWords(s) == t
  {
  }

  // "no-date-file.html" -> "No Date File"

  lemma NoDateStem()
    ensures RemoveFirst("no-date-file.html", HtmlExtension) == "no-date-file"
  {
    var s := "no-date-file.html";
    assert s[..12] == "no-date-file";
    assert OccursAt(s, HtmlExtension, 12);
    FirstByLeadChar(s, HtmlExtension, 12);
  }

  lemma NoDateSpaced()
    ensures ReplaceChar("no-date-file", '-', ' ') == "no date file"
  {
    var spaced := ReplaceChar("no-date-file", '-', ' ');
    assert forall k :: 0 <= k < |spaced| ==> spaced[k] == "no date file"[k];
  }

  lemma NoDateCapitalized()
    ensures CapitalizeWords("no date file") == "No Date File"
  {
    var s := "no date file";
    assert StartsWord(s, 0) && StartsWord(s, 3) && StartsWord(s, 8);
    assert forall k :: 0 <= k < |s| && k != 0 && k != 3 && k != 8 ==> !StartsWord(s, k);
    CapitalizedFromStarts(s, "No Date File");
  }

  lemma ExampleNoDate()
    ensures FormatTitle("no-date-file.html") == "No Date File"
  {
    NoDateStem();
    NoDateSpaced();
    NoDateCapitalized();
    FormatTitleSteps("no-date-file.html", "no-date-file", "no date file", "No Date File");
  }

  // "2025-12-05-notes.html" -> "2025 12 05 Notes": a date prefix is not
  // treated specially; its digits are word characters left as they are.

  lemma DatePrefixStem()
    ensures RemoveFirst("2025-12-05-notes.html", HtmlExtension) == "2025-12-05-notes"
  {
    var s := "2025-12-05-notes.html";
    assert s[..16] == "2025-12-05-notes";
    assert OccursAt(s, HtmlExtension, 16);
    FirstByLeadChar(s, HtmlExtension, 16);
  }

  lemma DatePrefixSpaced()
    ensures ReplaceChar("2025-12-05-notes", '-', ' ') == "2025 12 05 notes"
  {
    var spaced := ReplaceChar("2025-12-05-notes", '-', ' ');
    assert forall k :: 0 <= k < |spaced| ==> spaced[k] == "2025 12 05 notes"[k];
  }

  lemma DatePrefixCapitalized()
    ensures CapitalizeWords("2025 12 05 notes") == "2025 12 05 Notes"
  {
    var s := "2025 12 05 notes";
    assert StartsWord(s, 0) && StartsWord(s, 5) && StartsWord(s, 8) && StartsWord(s, 11);
    assert forall k :: 0 <= k < |s| && k != 0 && k != 5 && k != 8 && k != 11 ==> !StartsWord(s, k);
    CapitalizedFromStarts(s, "2025 12 05 Notes");
  }

  lemma ExampleDatePrefix()
    ensures FormatTitle("2025-12-05-notes.html") == "2025 12 05 Notes"
  {
    DatePrefixStem();
    DatePrefixSpaced();
    DatePrefixCapitalized();
    FormatTitleSteps("2025-12-05-notes.html", "2025-12-05-notes", "2025 12 05 notes", "2025 12 05 Notes");
  }

  // "a.html-b.html" -> "A B.Html": only the first ".html" is removed, and the
  // "h" after the surviving "." starts a word.

  lemma FirstOccurrenceStem()
    ensures RemoveFirst("a.html-b.html", HtmlExtension) == "a-b.html"
  {
    var s := "a.html-b.html";
    assert s[..1] == "a";
    assert s[1..6] == HtmlExtension;
    assert s[6..] == "-b.html";
    FirstByLeadChar(s, HtmlExtension, 1);
    assert "a" + "-b.html" == "a-b.html";
  }

  lemma FirstOccurrenceSpaced()
    ensures ReplaceChar("a-b.html", '-', ' ') == "a b.html"
  {
    var spaced := ReplaceChar("a-b.html", '-', ' ');
    assert forall k :: 0 <= k < |spaced| ==> spaced[k] == "a b.html"[k];
  }

  lemma FirstOccurrenceCapitalized()
    ensures CapitalizeWords("a b.html") == "A B.Html"
  {
    var s := "a b.html";
    assert StartsWord(s, 0) && StartsWord(s, 2) && StartsWord(s, 4);
    assert forall k :: 0 <= k < |s| && k != 0 && k != 2 && k != 4 ==> !StartsWord(s, k);
    CapitalizedFromStarts(s, "A B.Html");
  }

  lemma ExampleFirstOccurrence()
    ensures FormatTitle("a.html-b.html") == "A B.Html"
  {
    FirstOccurrenceStem();
    FirstOccurrenceSpaced();
    FirstOccurrenceCapitalized();
    FormatTitleSteps("a.html-b.html", "a-b.html", "a b.html", "A B.Html");
  }

  // "яblog-заметка.html" -> "яBlog заметка": Cyrillic letters are
  // non-word characters, so they are never upper-cased and the Latin letter
  // after them starts a word.

  lemma CyrillicStem()
    ensures RemoveFirst("яblog-заметка.html", HtmlExtension) == "яblog-заметка"
  {
    var s := "яblog-заметка.html";
    assert s[..13] == "яblog-заметка";
    assert OccursAt(s, HtmlExtension, 13);
    FirstByLeadChar(s, HtmlExtension, 13);
  }

  lemma CyrillicSpaced()
    ensures ReplaceChar("яblog-заметка", '-', ' ') == "яblog заметка"
  {
    var spaced := ReplaceChar("яblog-заметка", '-', ' ');
    assert forall k :: 0 <= k < |spaced| ==> spaced[k] == "яblog заметка"[k];
  }

  lemma CyrillicCapitalized()
    ensures CapitalizeWords("яblog заметка") == "яBlog заметка"
  {
    var s := "яblog заметка";
    assert StartsWord(s, 1);
    assert forall k :: 0 <= k < |s| && k != 1 ==> !StartsWord(s, k);
    CapitalizedFromStarts(s, "яBlog заметка");
  }

  lemma ExampleCyrillic()
    ensures FormatTitle("яblog-заметка.html") == "яBlog заметка"
  {
    CyrillicStem();
    CyrillicSpaced();
    CyrillicCapitalized();
    FormatTitleSteps("яblog-заметка.html", "яblog-заметка", "яblog заметка", "яBlog заметка");
  }

  // "readme" -> "Readme": a name without ".html" keeps its length.

  lemma ReadmeCapitalized()
    ensures CapitalizeWords("readme") == "Readme"
  {
    var s := "readme";
    assert StartsWord(s, 0);
    assert forall k :: 0 < k < |s| ==> !StartsWord(s, k);
    CapitalizedFromStarts(s, "Readme");
  }

  lemma ExampleNoExtension()
    ensures FormatTitle("readme") == "Readme"
  {
    AbsentLeadChar("readme", HtmlExtension);
    assert '-' !in "readme";
    ReadmeCapitalized();
    FormatTitleSteps("readme", "readme", "readme", "Readme");
  }
}
