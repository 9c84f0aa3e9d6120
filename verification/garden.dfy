/** The entry list of the garden homepage (js/garden.js): a directory listing
    of the `entries` folder becomes a list of links, newest-looking name
    first, each titled by `formatTitle`; any failure becomes a single error
    item instead.

    The browser side — `fetch`, `response.json()`, the DOM elements the items
    are appended to, the console — is replaced by a value describing what the
    request produced (`Response`) and the sequence of list items the page
    would show (`seq<Item>`). */
module Garden {
  import opened Text
  import opened Order

  /** The extension `formatTitle` strips and the listing keeps. */
  const HtmlExtension: string := ".html"

  /** The folder every link points into. */
  const EntriesDir: string := "entries/"

  /** The message of the error thrown for a response that is not ok. */
  const LoadFailedMessage: string := "Не удалось загрузить записи. Попробуйте позже."

  // ---------------------------------------------------------------------------
  // formatTitle
  // ---------------------------------------------------------------------------

  /** `formatTitle(filename)`: cut out the first `.html`, turn every `-` into a
      space, and upper-case each word character that starts a word.

      A `-` and the space replacing it are both non-word characters, so word
      starts can be read off the name with `.html` removed; the title differs
      from that string exactly at hyphens and at lower-case ASCII letters
      that start a word. */
  function FormatTitle(filename: string): (title: string)
    ensures Contains(filename, HtmlExtension) ==> |title| == |filename| - |HtmlExtension|
    ensures !Contains(filename, HtmlExtension) ==> |title| == |filename|
    ensures '-' !in title
    ensures var stem := RemoveFirst(filename, HtmlExtension);
      && |title| == |stem|
      && forall k :: 0 <= k < |stem| ==>
           title[k] == (if stem[k] == '-' then ' '
                        else if StartsWord(stem, k) then ToUpper(stem[k])
                        else stem[k])
  {
    var stem := RemoveFirst(filename, HtmlExtension);
    var spaced := ReplaceChar(stem, '-', ' ');
    var title := CapitalizeWords(spaced);
    assert forall k :: 0 <= k < |stem| ==> IsWordChar(spaced[k]) == IsWordChar(stem[k]);
    assert forall k :: 0 <= k < |stem| ==> StartsWord(spaced, k) == StartsWord(stem, k);
    title
  }

  // ---------------------------------------------------------------------------
  // The listing: filter, sort, map
  // ---------------------------------------------------------------------------

  /** What the request for the directory listing produced: the file names of
      an ok response, a response that is not ok, or an error thrown while
      fetching or reading the body, with its message. */
  datatype Response = Ok(names: seq<string>) | NotOk | Failed(message: string)

  /** One list item on the page: a link to an entry, or the error line. */
  datatype Item = Link(href: string, text: string) | Error(message: string)

  /** `files.filter(file => file.name.endsWith('.html'))`: every `.html`
      name is kept as often as it occurs, every other name is dropped. */
  function HtmlOnly(names: seq<string>): (kept: seq<string>)
    ensures forall i :: 0 <= i < |kept| ==> EndsWith(kept[i], HtmlExtension)
    ensures forall n :: multiset(kept)[n] == if EndsWith(n, HtmlExtension) then multiset(names)[n] else 0
  {
    if names == [] then []
    else
      assert names == [names[0]] + names[1..];
      (if EndsWith(names[0], HtmlExtension) then [names[0]] else []) + HtmlOnly(names[1..])
  }

  /** The names the page links to, in page order: the `.html` names, sorted
      by the comparator `(a, b) => b.name.localeCompare(a.name)`. */
  function Listing(names: seq<string>): (listed: seq<string>)
    ensures SortedDesc(listed)
    ensures forall n :: multiset(listed)[n] == if EndsWith(n, HtmlExtension) then multiset(names)[n] else 0
  {
    SortDesc(HtmlOnly(names))
  }

  /** The `<a>` built for one file. It points into the entries folder, the
      file name can be read back from its `href`, a `.html` name gives an
      `href` ending in `.html`, and its text has no hyphen. */
  function EntryLink(name: string): (item: Item)
    ensures item.Link? && EntriesDir <= item.href
    ensures LinkedName(item) == name
    ensures EndsWith(name, HtmlExtension) ==> EndsWith(item.href, HtmlExtension)
    ensures '-' !in item.text
  {
    PrefixRoundTrip(EntriesDir, name);
    Link(EntriesDir + name, FormatTitle(name))
  }

  /** `loadEntries`: the items appended to the list. On success one link per
      listed name, in listing order; on any failure exactly one error item
      and no link. */
  function LoadEntries(response: Response): (items: seq<Item>)
    ensures response.NotOk? ==> items == [Error(LoadFailedMessage)]
    ensures response.Failed? ==> items == [Error(response.message)]
    ensures !response.Ok? ==> |items| == 1 && forall i :: 0 <= i < |items| ==> !items[i].Link?
    ensures response.Ok? ==> |items| == |HtmlOnly(response.names)|
    ensures response.Ok? ==> forall i :: 0 <= i < |items| ==> items[i].Link?
  {
    match response
    case Ok(names) =>
      var listed := Listing(names);
      assert |listed| == |multiset(listed)| == |multiset(HtmlOnly(names))| == |HtmlOnly(names)|;
      seq(|listed|, i requires 0 <= i < |listed| => EntryLink(listed[i]))
    case NotOk => [Error(LoadFailedMessage)]
    case Failed(message) => [Error(message)]
  }

  /** The file name a link points to: its `href` without the folder. */
  function LinkedName(item: Item): string {
    if item.Link? && EntriesDir <= item.href then item.href[|EntriesDir|..] else ""
  }

  /** The file names behind a sequence of links, in order: putting the
      folder back in front of a name gives its link's `href`. */
  function LinkedNames(items: seq<Item>): (names: seq<string>)
    ensures |names| == |items|
    ensures forall i :: 0 <= i < |items| && items[i].Link? && EntriesDir <= items[i].href ==>
      EntriesDir + names[i] == items[i].href
  {
    seq(|items|, i requires 0 <= i < |items| => LinkedName(items[i]))
  }

  // ---------------------------------------------------------------------------
  // Properties of formatTitle
  // ---------------------------------------------------------------------------

  /** A title character differs from the name's character exactly when it
      was a hyphen or a lower-case ASCII letter starting a word: at the start
      of the string or right after a non-word character. */
  lemma FormatTitleChanges(filename: string, k: nat)
    requires k < |RemoveFirst(filename, HtmlExtension)|
    ensures var stem := RemoveFirst(filename, HtmlExtension);
      FormatTitle(filename)[k] != stem[k] <==>
        stem[k] == '-' || (IsLowerAscii(stem[k]) && (k == 0 || !IsWordChar(stem[k - 1])))
  {
  }

  /** For a name whose only `.html` is its extension, the title is built from
      the name without that extension. */
  lemma FormatTitleStripsExtension(filename: string)
    requires EndsWith(filename, HtmlExtension)
    requires forall j: nat :: j < |filename| - |HtmlExtension| ==> !OccursAt(filename, HtmlExtension, j)
    ensures RemoveFirst(filename, HtmlExtension) == filename[..|filename| - |HtmlExtension|]
    ensures |FormatTitle(filename)| == |filename| - |HtmlExtension|
  {
    var i := |filename| - |HtmlExtension|;
    assert OccursAt(filename, HtmlExtension, i);
    assert FirstOccurrence(filename, HtmlExtension, i);
    assert filename[i + |HtmlExtension|..] == [];
  }

  // ---------------------------------------------------------------------------
  // Properties of the listing
  // ---------------------------------------------------------------------------

  /** The listing is the one descending arrangement of the `.html` names:
      any sequence that is descending and holds each `.html` name as often
      as the directory does is the listing, and the listing is such a
      sequence. */
  lemma {:induction false} ListingCharacterised(names: seq<string>, t: seq<string>)
    ensures t == Listing(names) <==>
      && SortedDesc(t)
      && forall n :: multiset(t)[n] == if EndsWith(n, HtmlExtension) then multiset(names)[n] else 0
  {
    var listed := Listing(names);
    if SortedDesc(t) && forall n :: multiset(t)[n] == if EndsWith(n, HtmlExtension) then multiset(names)[n] else 0 {
      assert forall n :: multiset(t)[n] == multiset(listed)[n];
      assert multiset(t) == multiset(listed);
      SortedDescUnique(t, listed);
    }
  }

  /** Text-level facts behind a link's `href`: the folder is a prefix, the
      name can be read back, and the extension survives. */
  lemma {:induction false} PrefixRoundTrip(prefix: string, name: string)
    ensures prefix <= prefix + name
    ensures (prefix + name)[|prefix|..] == name
    ensures EndsWith(name, HtmlExtension) ==> EndsWith(prefix + name, HtmlExtension)
  {
    var href := prefix + name;
    assert href[..|prefix|] == prefix;
    if EndsWith(name, HtmlExtension) {
      assert href[|href| - |HtmlExtension|..] == name[|name| - |HtmlExtension|..];
    }
  }

  /** Every link on success points into the entries folder at a listed
      `.html` name, and is titled by `formatTitle` of that name. */
  lemma LoadEntriesLinks(names: seq<string>, i: nat)
    requires i < |LoadEntries(Ok(names))|
    ensures var item := LoadEntries(Ok(names))[i];
      && item.Link?
      && item.href == EntriesDir + Listing(names)[i]
      && LinkedName(item) == Listing(names)[i]
      && EndsWith(item.href, HtmlExtension)
      && item.text == FormatTitle(LinkedName(item))
      && '-' !in item.text
  {
    var listed := Listing(names);
    var name := listed[i];
    assert LoadEntries(Ok(names))[i] == EntryLink(name);
    assert multiset(listed)[name] > 0;
  }

  /** Reading the names back out of the links gives the listing. */
  lemma LoadEntriesRoundTrip(names: seq<string>)
    ensures LinkedNames(LoadEntries(Ok(names))) == Listing(names)
  {
    var items := LoadEntries(Ok(names));
    forall i | 0 <= i < |items|
      ensures LinkedName(items[i]) == Listing(names)[i]
    {
      LoadEntriesLinks(names, i);
    }
  }

  /** One link per `.html` name of the directory, counted with multiplicity,
      and none for any other name. */
  lemma LoadEntriesPermutation(names: seq<string>)
    ensures forall n :: multiset(LinkedNames(LoadEntries(Ok(names))))[n] ==
                        if EndsWith(n, HtmlExtension) then multiset(names)[n] else 0
  {
    LoadEntriesRoundTrip(names);
  }

  /** Links appear in descending order of their file names. */
  lemma LoadEntriesOrdered(names: seq<string>)
    ensures SortedDesc(LinkedNames(LoadEntries(Ok(names))))
  {
    LoadEntriesRoundTrip(names);
  }
}
