/**
 * The page state the site's script keeps once it has loaded: the parsed
 * records (`articles`), the people tiles, what the four sections show, and
 * whether the reset button is visible. The handlers `filterArticles`,
 * `resetArticles` and the two modals act on it.
 */
module Site {
  import opened Wrappers
  import opened Text
  import opened Bibtex
  import opened Catalog

  /** The reset button: hidden while everything is shown, visible after a selection. */
  datatype Selection = All | Filtered

  class Page {
    /** `articles`, assigned once by `init`. */
    const store: seq<Record>
    /** The people tiles, in the order they were appended. */
    const people: seq<string>
    /** What the articles, PhD theses, master's theses and conferences sections show. */
    var shown: Groupings
    var selection: Selection

    /** What `init` established: every record has an author (or `init` would
        have thrown) and the people tiles are the people index. */
    ghost predicate Loaded()
      reads this
    {
      AllHaveAuthor(store) && people == People(store)
    }

    /** Loaded, and the sections show the whole store or the selection of
        some author text, as the button says. */
    ghost predicate Valid()
      reads this
    {
      && Loaded()
      && (selection == All ==> shown == Populate(store))
      && (selection == Filtered ==> exists a :: shown == Filter(store, a))
    }

    /** The rest of `init` once the records are parsed and the people are
        known: every section populated from the whole store. */
    constructor(store: seq<Record>, people: seq<string>)
      requires AllHaveAuthor(store) && people == People(store)
      ensures this.store == store && this.people == people
      ensures shown == Populate(store) && selection == All
      ensures Valid()
    {
      this.store := store;
      this.people := people;
      shown := Populate(store);
      selection := All;
    }

    /** `filterArticles(author)`: each section recomputed from the whole store,
        whatever was shown before; the reset button appears. */
    method Select(author: string)
      requires Loaded()
      modifies this
      ensures shown == Filter(store, author) && selection == Filtered
      ensures Valid()
    {
      var filteredArticles := ByAuthor(store, author);
      var filteredPhds := OfTypeByAuthor(store, "phdthesis", author);
      var filteredMsc := OfTypeByAuthor(store, "mastersthesis", author);
      var filteredConferences := OfTypeByAuthor(store, "inproceedings", author);
      shown := Groupings(
        OfType(filteredArticles, "article"),
        Project(OfType(filteredPhds, "phdthesis")),
        Project(OfType(filteredMsc, "mastersthesis")),
        Project(OfType(filteredConferences, "inproceedings")));
      selection := Filtered;
    }

    /** `resetArticles()`: every section shows the whole store again and the
        reset button is hidden. */
    method Reset()
      requires Loaded()
      modifies this
      ensures shown == Populate(store) && selection == All
      ensures Valid()
    {
      shown := Populate(store);
      selection := All;
    }

    /** The author links of a modal: the record found by key, its author field
        split on " and " and trimmed. Every link is a person of the index.
        `None` where the source reads a field of `undefined`. */
    method ModalAuthors(key: string) returns (r: Option<seq<string>>)
      requires Loaded()
      ensures r.None? <==> Find(store, key).None?
      ensures r.Some? ==> r.value == AuthorNames(Find(store, key).value["author"])
      ensures r.Some? ==> forall n :: n in r.value ==> n in people
    {
      var found := Find(store, key);
      if found.None? {
        return None;
      }
      var record := found.value;
      var i :| 0 <= i < |store| && store[i] == record;
      var names := AuthorNames(record["author"]);
      forall n | n in names
        ensures n in people
      {
        assert n in Names(store);
      }
      return Some(names);
    }
  }

  /** `init()`: parse the text, add the people tiles, populate the sections.
      `null` when the parse throws (an entry without a key) or a record has no
      author: `init` throws before the handlers are installed. */
  method Init(text: string) returns (page: Page?)
    ensures page == null <==> Parse(text).Failure? || !AllHaveAuthor(Parse(text).value)
    ensures page != null ==> && fresh(page) && page.Valid() && page.store == Parse(text).value
                             && page.shown == Populate(page.store) && page.selection == All
  {
    var parsed := Parse(text);
    if parsed.Failure? {
      return null;
    }
    var people := PopulatePeople(parsed.value);
    if people.None? {
      return null;
    }
    page := new Page(parsed.value, people.value);
  }
}
