/**
 * What the site's script computes from the parsed records: the four type
 * groupings and their projections, the author filter, the index of people,
 * the last name used for a person's picture, and the lookup by key.
 */
module Catalog {
  import opened Wrappers
  import opened Text
  import opened Bibtex

  // ---------------------------------------------------------------------
  // Reading a record

  /** `record[name]`, which is `undefined` when the record has no such field. */
  function Get(x: Record, name: string): (r: Option<string>)
    ensures r.Some? <==> name in x
    ensures r.Some? ==> r.value == x[name]
  {
    if name in x then Some(x[name]) else None
  }

  /** `record.type === t` */
  predicate HasType(x: Record, t: string) {
    "type" in x && x["type"] == t
  }

  /** `record.key === k` */
  predicate HasKey(x: Record, k: string) {
    "key" in x && x["key"] == k
  }

  /** Every record has an `author`, so reading `record.author.…` never throws. */
  predicate AllHaveAuthor(store: seq<Record>) {
    forall i :: 0 <= i < |store| ==> "author" in store[i]
  }

  // ---------------------------------------------------------------------
  // Type groupings

  /** `store.filter(record => record.type === t)` */
  function OfType(store: seq<Record>, t: string): (r: seq<Record>)
    ensures |r| <= |store|
    ensures forall x :: x in r <==> x in store && HasType(x, t)
    decreases |store|
  {
    if store == [] then []
    else (if HasType(store[0], t) then [store[0]] else []) + OfType(store[1..], t)
  }

  /** Filtering keeps the order of the store: it works part by part. */
  lemma {:induction false} OfTypeAppend(s1: seq<Record>, s2: seq<Record>, t: string)
    ensures OfType(s1 + s2, t) == OfType(s1, t) + OfType(s2, t)
    decreases |s1|
  {
    if s1 == [] {
      assert s1 + s2 == s2;
    } else {
      var head := if HasType(s1[0], t) then [s1[0]] else [];
      assert (s1 + s2)[0] == s1[0];
      assert (s1 + s2)[1..] == s1[1..] + s2;
      assert OfType(s1 + s2, t) == head + OfType(s1[1..] + s2, t);
      OfTypeAppend(s1[1..], s2, t);
      assert OfType(s1, t) == head + OfType(s1[1..], t);
    }
  }

  /** Filtering twice by the same type changes nothing. */
  lemma {:induction false} OfTypeIdempotent(store: seq<Record>, t: string)
    ensures OfType(OfType(store, t), t) == OfType(store, t)
    decreases |store|
  {
    if store != [] {
      OfTypeIdempotent(store[1..], t);
      var head := if HasType(store[0], t) then [store[0]] else [];
      OfTypeAppend(head, OfType(store[1..], t), t);
      if head != [] {
        assert head[1..] == [];
      }
    }
  }

  /** The fields a thesis or conference tile shows. */
  datatype Summary = Summary(
    key: Option<string>,
    title: Option<string>,
    description: Option<string>,
    author: Option<string>,
    year: string)

  /** `{ key, title, description: note, author, year: year || '' }` */
  function Summarize(x: Record): (s: Summary)
    ensures s.key == Get(x, "key") && s.title == Get(x, "title")
    ensures s.description == Get(x, "note") && s.author == Get(x, "author")
    ensures s.year == if "year" in x then x["year"] else ""
  {
    Summary(Get(x, "key"), Get(x, "title"), Get(x, "note"), Get(x, "author"),
            match Get(x, "year") case Some(y) => y case None => "")
  }

  /** `records.map(record => summary)`; the `Set` around it keeps every
      summary, since each is a fresh object. */
  function Project(records: seq<Record>): (r: seq<Summary>)
    ensures |r| == |records| && forall i :: 0 <= i < |records| ==> r[i] == Summarize(records[i])
  {
    seq(|records|, i requires 0 <= i < |records| => Summarize(records[i]))
  }

  /** What the four sections of the page show. */
  datatype Groupings = Groupings(
    articles: seq<Record>,
    phdTheses: seq<Summary>,
    mastersTheses: seq<Summary>,
    conferences: seq<Summary>)

  /** `section` shows the summary of every record of type `t` and nothing else. */
  ghost predicate ShowsSummaries(section: seq<Summary>, records: seq<Record>, t: string) {
    && (forall x :: x in records && HasType(x, t) ==> Summarize(x) in section)
    && (forall y :: y in section ==> exists x :: x in records && HasType(x, t) && y == Summarize(x))
  }

  /** A summary section built from the records of one type shows exactly
      their summaries. */
  lemma ProjectShows(records: seq<Record>, t: string)
    ensures ShowsSummaries(Project(OfType(records, t)), records, t)
  {
    var r := OfType(records, t);
    forall x | x in records && HasType(x, t)
      ensures Summarize(x) in Project(r)
    {
      var i :| 0 <= i < |r| && r[i] == x;
      assert Project(r)[i] == Summarize(x);
    }
    forall y | y in Project(r)
      ensures exists x :: x in records && HasType(x, t) && y == Summarize(x)
    {
      var i :| 0 <= i < |r| && Project(r)[i] == y;
      assert r[i] in r;
    }
  }

  /** The four `populate…` calls on a list of records: the articles section
      holds exactly the records of type `article`, and each other section the
      summaries of exactly the records of its type. A record of any other type
      is in no section. */
  function Populate(records: seq<Record>): (r: Groupings)
    ensures forall x :: x in r.articles <==> x in records && HasType(x, "article")
    ensures ShowsSummaries(r.phdTheses, records, "phdthesis")
    ensures ShowsSummaries(r.mastersTheses, records, "mastersthesis")
    ensures ShowsSummaries(r.conferences, records, "inproceedings")
  {
    ProjectShows(records, "phdthesis");
    ProjectShows(records, "mastersthesis");
    ProjectShows(records, "inproceedings");
    Groupings(
      OfType(records, "article"),
      Project(OfType(records, "phdthesis")),
      Project(OfType(records, "mastersthesis")),
      Project(OfType(records, "inproceedings")))
  }

  // ---------------------------------------------------------------------
  // The author filter

  /** `record.author.includes(a)` */
  predicate ByAuthorKeeps(x: Record, a: string)
    requires "author" in x
  {
    Includes(x["author"], a)
  }

  /** `store.filter(record => record.author.includes(a))`, which throws on a
      record without `author`. */
  function ByAuthor(store: seq<Record>, a: string): (r: seq<Record>)
    requires AllHaveAuthor(store)
    ensures |r| <= |store|
    ensures forall i :: 0 <= i < |r| ==> r[i] in store && "author" in r[i] && ByAuthorKeeps(r[i], a)
    decreases |store|
  {
    if store == [] then []
    else (if ByAuthorKeeps(store[0], a) then [store[0]] else []) + ByAuthor(store[1..], a)
  }

  /** `store.filter(record => record.type === t && record.author.includes(a))`:
      the type test comes first, so only records of type `t` need an author. */
  function OfTypeByAuthor(store: seq<Record>, t: string, a: string): (r: seq<Record>)
    requires forall i :: 0 <= i < |store| && HasType(store[i], t) ==> "author" in store[i]
    ensures |r| <= |store|
    decreases |store|
  {
    if store == [] then []
    else
      (if HasType(store[0], t) && ByAuthorKeeps(store[0], a) then [store[0]] else [])
      + OfTypeByAuthor(store[1..], t, a)
  }

  /** The combined test is the author filter followed by the type filter. */
  lemma {:induction false} OfTypeByAuthorSplits(store: seq<Record>, t: string, a: string)
    requires AllHaveAuthor(store)
    ensures OfTypeByAuthor(store, t, a) == OfType(ByAuthor(store, a), t)
    decreases |store|
  {
    if store != [] {
      OfTypeByAuthorSplits(store[1..], t, a);
      var head := if ByAuthorKeeps(store[0], a) then [store[0]] else [];
      OfTypeAppend(head, ByAuthor(store[1..], a), t);
      if head != [] {
        assert head[1..] == [];
      }
    }
  }

  /** `filterArticles(a)`: every section recomputed from the whole store, each
      `populate…` filtering its type once more. It shows exactly what the
      unfiltered page would show for the records whose author contains `a`. */
  function Filter(store: seq<Record>, a: string): (r: Groupings)
    requires AllHaveAuthor(store)
    ensures r == Populate(ByAuthor(store, a))
  {
    SectionOfSelection(store, "phdthesis", a);
    SectionOfSelection(store, "mastersthesis", a);
    SectionOfSelection(store, "inproceedings", a);
    Groupings(
      OfType(ByAuthor(store, a), "article"),
      Project(OfType(OfTypeByAuthor(store, "phdthesis", a), "phdthesis")),
      Project(OfType(OfTypeByAuthor(store, "mastersthesis", a), "mastersthesis")),
      Project(OfType(OfTypeByAuthor(store, "inproceedings", a), "inproceedings")))
  }

  /** Each filtered section is the type filter over the selection. */
  lemma SectionOfSelection(store: seq<Record>, t: string, a: string)
    requires AllHaveAuthor(store)
    ensures OfType(OfTypeByAuthor(store, t, a), t) == OfType(ByAuthor(store, a), t)
  {
    OfTypeByAuthorSplits(store, t, a);
    OfTypeIdempotent(ByAuthor(store, a), t);
  }

  /** The selected records are exactly the records of the store whose author
      contains `a`. */
  lemma {:induction false} ByAuthorMembers(store: seq<Record>, a: string, x: Record)
    requires AllHaveAuthor(store)
    ensures x in ByAuthor(store, a) <==> x in store && ByAuthorKeeps(x, a)
    decreases |store|
  {
    if store != [] {
      ByAuthorMembers(store[1..], a, x);
      assert x in store <==> x == store[0] || x in store[1..];
    }
  }

  /** Every record whose author contains the empty text: selecting it shows
      everything. */
  lemma {:induction false} ByAuthorEmpty(store: seq<Record>)
    requires AllHaveAuthor(store)
    ensures ByAuthor(store, "") == store
    decreases |store|
  {
    if store != [] {
      assert AllHaveAuthor(store[1..]);
      ByAuthorEmpty(store[1..]);
      assert ByAuthorKeeps(store[0], "");
      assert ByAuthor(store, "") == [store[0]] + ByAuthor(store[1..], "");
      assert store == [store[0]] + store[1..];
    }
  }

  /** Selecting the empty text shows what the unfiltered page shows. */
  lemma FilterEmptyShowsAll(store: seq<Record>)
    requires AllHaveAuthor(store)
    ensures Filter(store, "") == Populate(store)
  {
    ByAuthorEmpty(store);
  }

  /** Filtering the filtered records again by a longer name is filtering the
      whole store by that name: "Anna" selects a part of what "Ann" selects. */
  lemma {:induction false} ByAuthorNarrows(store: seq<Record>, a: string, b: string)
    requires AllHaveAuthor(store) && Includes(b, a)
    ensures ByAuthor(ByAuthor(store, a), b) == ByAuthor(store, b)
    decreases |store|
  {
    if store != [] {
      ByAuthorNarrows(store[1..], a, b);
      var x := store[0];
      if ByAuthorKeeps(x, b) {
        IncludesTransitive(x["author"], b, a);
      }
      var rest := ByAuthor(store[1..], a);
      if ByAuthorKeeps(x, a) {
        assert ([x] + rest)[0] == x;
        assert ([x] + rest)[1..] == rest;
      } else {
        assert [] + rest == rest;
      }
    }
  }

  // ---------------------------------------------------------------------
  // The index of people

  /** `author.split(' and ').map(name => name.trim())` */
  function AuthorNames(author: string): (r: seq<string>)
    ensures |r| == |Split(author, " and ")| > 0
    ensures forall i :: 0 <= i < |r| ==> r[i] == Trim(Split(author, " and ")[i])
  {
    var pieces := Split(author, " and ");
    seq(|pieces|, i requires 0 <= i < |pieces| => Trim(pieces[i]))
  }

  /** An author field without " and " names one person. */
  lemma AuthorNamesSingle(author: string)
    requires !Includes(author, " and ")
    ensures AuthorNames(author) == [Trim(author)]
  {
    SplitWithout(author, " and ");
  }

  /** The first " and " separates the first name from the others: "Hofmeyer,
      Herm and Snijder, HH" names "Hofmeyer, Herm" and then the names of
      "Snijder, HH". */
  lemma AuthorNamesCons(x: string, y: string)
    requires !Includes(x + " and", " and ")
    ensures AuthorNames(x + " and " + y) == [Trim(x)] + AuthorNames(y)
  {
    assert " and "[..|" and "| - 1] == " and";
    SplitAtFirstSep(x, " and ", y);
  }

  /** The lists one after the other. */
  function Flatten(lists: seq<seq<string>>): seq<string>
    decreases |lists|
  {
    if lists == [] then [] else Flatten(lists[..|lists| - 1]) + lists[|lists| - 1]
  }

  lemma {:induction false} FlattenMembers(lists: seq<seq<string>>, n: string)
    ensures n in Flatten(lists) <==> exists i :: 0 <= i < |lists| && n in lists[i]
    decreases |lists|
  {
    if lists != [] {
      var init := lists[..|lists| - 1];
      FlattenMembers(init, n);
      assert forall i :: 0 <= i < |init| ==> init[i] == lists[i];
    }
  }

  /** The author names of each record, record by record. */
  function AuthorLists(store: seq<Record>): (r: seq<seq<string>>)
    requires AllHaveAuthor(store)
    ensures |r| == |store| && forall i :: 0 <= i < |store| ==> r[i] == AuthorNames(store[i]["author"])
  {
    seq(|store|, i requires 0 <= i < |store| && "author" in store[i] => AuthorNames(store[i]["author"]))
  }

  /** Every author name of every record, in store order, repeats included: a
      name is listed exactly when it is a trimmed piece of some record's author. */
  function Names(store: seq<Record>): (r: seq<string>)
    requires AllHaveAuthor(store)
    ensures forall n :: n in r <==> exists i :: 0 <= i < |store| && n in AuthorNames(store[i]["author"])
  {
    var lists := AuthorLists(store);
    forall n
      ensures n in Flatten(lists) <==> exists i :: 0 <= i < |lists| && n in lists[i]
    {
      FlattenMembers(lists, n);
    }
    Flatten(lists)
  }

  /** `set.add(v)` on a set that iterates in insertion order. */
  function Insert(people: seq<string>, v: string): (r: seq<string>)
    ensures v in r && forall u :: u in people ==> u in r
    ensures forall u :: u in r ==> u in people || u == v
  {
    if v in people then people else people + [v]
  }

  /** The first index at which `v` occurs. */
  function FirstIndex(xs: seq<string>, v: string): (i: nat)
    requires v in xs
    ensures i < |xs| && xs[i] == v && forall j :: 0 <= j < i ==> xs[j] != v
  {
    if xs[0] == v then 0 else 1 + FirstIndex(xs[1..], v)
  }

  lemma {:induction false} FirstIndexPrefix(xs: seq<string>, ys: seq<string>, v: string)
    requires v in xs
    ensures FirstIndex(xs + ys, v) == FirstIndex(xs, v)
    decreases |xs|
  {
    assert (xs + ys)[0] == xs[0];
    if xs[0] != v {
      assert (xs + ys)[1..] == xs[1..] + ys;
      FirstIndexPrefix(xs[1..], ys, v);
    }
  }

  /** Inserting the names one after another into an empty set: the set never
      holds more elements than there were insertions. */
  function InsertAll(names: seq<string>): (r: seq<string>)
    ensures |r| <= |names|
    decreases |names|
  {
    if names == [] then []
    else Insert(InsertAll(names[..|names| - 1]), names[|names| - 1])
  }

  lemma InsertAllSnoc(names: seq<string>, v: string)
    ensures InsertAll(names + [v]) == Insert(InsertAll(names), v)
  {
    assert (names + [v])[..|names|] == names;
  }

  /** The set holds exactly the inserted names. */
  lemma {:induction false} InsertAllMembers(names: seq<string>)
    ensures forall v :: v in InsertAll(names) <==> v in names
    decreases |names|
  {
    if names != [] {
      var init := names[..|names| - 1];
      InsertAllMembers(init);
      assert names == init + [names[|names| - 1]];
    }
  }

  /** No name occurs twice. */
  predicate Distinct(xs: seq<string>) {
    forall i, j :: 0 <= i < j < |xs| ==> xs[i] != xs[j]
  }

  /** Adding a name that is not there yet keeps a list free of repeats. */
  lemma DistinctSnoc(xs: seq<string>, v: string)
    requires Distinct(xs) && v !in xs
    ensures Distinct(xs + [v])
  {
    var r := xs + [v];
    forall i, j | 0 <= i < j < |r|
      ensures r[i] != r[j]
    {
      assert r[i] == xs[i] && xs[i] in xs;
      if j < |xs| {
        assert r[j] == xs[j];
      }
    }
  }

  /** The set holds each name once. */
  lemma {:induction false} InsertAllDistinct(names: seq<string>)
    ensures Distinct(InsertAll(names))
    decreases |names|
  {
    if names != [] {
      var init := names[..|names| - 1];
      var prev, v := InsertAll(init), names[|names| - 1];
      InsertAllDistinct(init);
      assert InsertAll(names) == Insert(prev, v);
      if v !in prev {
        DistinctSnoc(prev, v);
      }
    }
  }

  /** Every element of `r` is a name, and `r` lists them in the order in
      which they first appear among `names`. */
  ghost predicate InFirstOccurrenceOrder(r: seq<string>, names: seq<string>) {
    && (forall i :: 0 <= i < |r| ==> r[i] in names)
    && forall i, j :: 0 <= i < j < |r| ==> FirstIndex(names, r[i]) < FirstIndex(names, r[j])
  }

  lemma OrderExtend(r: seq<string>, names: seq<string>, v: string)
    requires InFirstOccurrenceOrder(r, names)
    ensures InFirstOccurrenceOrder(r, names + [v])
  {
    forall i | 0 <= i < |r|
      ensures FirstIndex(names + [v], r[i]) == FirstIndex(names, r[i])
    {
      FirstIndexPrefix(names, [v], r[i]);
    }
  }

  lemma OrderAppendNew(r: seq<string>, names: seq<string>, v: string)
    requires InFirstOccurrenceOrder(r, names + [v]) && v !in names
    requires forall i :: 0 <= i < |r| ==> r[i] in names
    ensures InFirstOccurrenceOrder(r + [v], names + [v])
  {
    var all := names + [v];
    assert FirstIndex(all, v) == |names|;
    forall i | 0 <= i < |r|
      ensures FirstIndex(all, r[i]) < |names|
    {
      FirstIndexPrefix(names, [v], r[i]);
    }
  }

  /** The set iterates in order of first insertion. */
  lemma {:induction false} InsertAllOrder(names: seq<string>)
    ensures InFirstOccurrenceOrder(InsertAll(names), names)
    decreases |names|
  {
    if names != [] {
      var init := names[..|names| - 1];
      var v := names[|names| - 1];
      assert names == init + [v];
      InsertAllOrder(init);
      InsertAllMembers(init);
      var prev := InsertAll(init);
      assert InsertAll(names) == Insert(prev, v);
      OrderExtend(prev, init, v);
      if v !in prev {
        OrderAppendNew(prev, init, v);
      }
    }
  }

  /** The people of the page: every author name, each once, in order of first
      appearance. */
  function People(store: seq<Record>): (r: seq<string>)
    requires AllHaveAuthor(store)
    ensures forall n :: n in r <==> n in Names(store)
  {
    InsertAllMembers(Names(store));
    InsertAll(Names(store))
  }

  /** The people index is duplicate-free and lists the names in order of
      first appearance. */
  lemma PeopleIndex(store: seq<Record>)
    requires AllHaveAuthor(store)
    ensures Distinct(People(store))
    ensures InFirstOccurrenceOrder(People(store), Names(store))
  {
    var names := Names(store);
    InsertAllDistinct(names);
    InsertAllMembers(names);
    InsertAllOrder(names);
  }

  lemma AllHaveAuthorSnoc(store: seq<Record>, i: int)
    requires 0 <= i < |store| && AllHaveAuthor(store[..i]) && "author" in store[i]
    ensures AllHaveAuthor(store[..i + 1])
  {
    var prefix := store[..i + 1];
    forall k | 0 <= k < |prefix|
      ensures "author" in prefix[k]
    {
      if k < i {
        assert prefix[k] == store[..i][k];
      }
    }
  }

  lemma NamesSnoc(store: seq<Record>, i: int)
    requires 0 <= i < |store| && AllHaveAuthor(store[..i + 1])
    ensures AllHaveAuthor(store[..i])
    ensures Names(store[..i + 1]) == Names(store[..i]) + AuthorNames(store[i]["author"])
  {
    var lists := AuthorLists(store[..i + 1]);
    assert lists[..i] == AuthorLists(store[..i]);
  }

  lemma AppendTakeSnoc(before: seq<string>, names: seq<string>, j: int)
    requires 0 <= j < |names|
    ensures before + names[..j + 1] == (before + names[..j]) + [names[j]]
  {
    assert names[..j + 1] == names[..j] + [names[j]];
  }

  /** Taking none of a list adds nothing; taking all of it is the list. */
  lemma TakeEnds<T>(before: seq<T>, names: seq<T>)
    ensures before + names[..0] == before && names[..|names|] == names
  {
  }

  /** Adding one more name of a list to the set built so far. */
  lemma InsertAllStep(before: seq<string>, names: seq<string>, j: int)
    requires 0 <= j < |names|
    ensures InsertAll(before + names[..j + 1]) == Insert(InsertAll(before + names[..j]), names[j])
  {
    AppendTakeSnoc(before, names, j);
    InsertAllSnoc(before + names[..j], names[j]);
  }

  /** The inner `forEach`: adding the trimmed names of one author field. */
  method AddAuthors(people: seq<string>, ghost before: seq<string>, author: string) returns (r: seq<string>)
    requires people == InsertAll(before)
    ensures r == InsertAll(before + AuthorNames(author))
  {
    var pieces := Split(author, " and ");
    ghost var names := AuthorNames(author);
    r := people;
    TakeEnds(before, names);
    var j := 0;
    while j < |pieces|
      invariant 0 <= j <= |pieces| == |names|
      invariant r == InsertAll(before + names[..j])
    {
      var name := Trim(pieces[j]);
      InsertAllStep(before, names, j);
      r := Insert(r, name);
      j := j + 1;
    }
  }

  /** `populatePeople(articles)`: the nested `forEach` loops adding every
      trimmed author name to a `Set`. A record without `author` throws. */
  method PopulatePeople(store: seq<Record>) returns (r: Option<seq<string>>)
    ensures r.None? <==> !AllHaveAuthor(store)
    ensures r.Some? ==> r.value == People(store)
  {
    var people: seq<string> := [];
    var i := 0;
    while i < |store|
      invariant 0 <= i <= |store|
      invariant AllHaveAuthor(store[..i])
      invariant people == InsertAll(Names(store[..i]))
    {
      if "author" !in store[i] {
        return None;
      }
      AllHaveAuthorSnoc(store, i);
      NamesSnoc(store, i);
      people := AddAuthors(people, Names(store[..i]), store[i]["author"]);
      i := i + 1;
    }
    assert store[..i] == store;
    return Some(people);
  }

  /** `name.split(',')[0].trim().split(' ').pop()`: the last space-separated
      word of the text before the first comma. */
  function LastName(name: string): (r: string)
    ensures ',' !in r && ' ' !in r
  {
    var head := Trim(Split(name, ",")[0]);
    var words := Split(head, " ");
    LastWordFree(name);
    words[|words| - 1]
  }

  lemma LastWordFree(name: string)
    ensures var words := Split(Trim(Split(name, ",")[0]), " ");
      ',' !in words[|words| - 1] && ' ' !in words[|words| - 1]
  {
    var first := Split(name, ",")[0];
    SplitPiecesFree(name, ',');
    assert ',' !in first;
    forall c | c in Trim(first)
      ensures c != ','
    {
      TrimKeepsChars(first, c);
    }
    var words := Split(Trim(first), " ");
    SplitPiecesFree(Trim(first), ' ');
    assert ' ' !in words[|words| - 1];
    var last := words[|words| - 1];
    forall k | 0 <= k < |last|
      ensures last[k] != ','
    {
      SplitKeepsChars(Trim(first), ' ', |words| - 1, last[k]);
    }
  }

  /** The token is the last word of the trimmed text before the first comma:
      that text is the token, preceded by nothing or by a space. */
  lemma LastNameIsLastWord(name: string) returns (pre: string)
    ensures Trim(Split(name, ",")[0]) == pre + LastName(name)
    ensures pre == [] || pre[|pre| - 1] == ' '
  {
    var head := Trim(Split(name, ",")[0]);
    var words := Split(head, " ");
    SplitJoin(head, " ");
    if |words| == 1 {
      pre := [];
    } else {
      var init := JoinLast(words, " ");
      pre := init + " ";
    }
  }

  /** In "Family, Given" the picture is named after the family name. */
  lemma LastNameOfFamilyFirst(family: string, given: string)
    requires family != [] && forall c :: c in family ==> c != ',' && c != ' ' && !IsSpace(c)
    ensures LastName(family + "," + given) == family
  {
    SplitAtFirst(family, ',', given);
    assert family + "," + given == family + [','] + given;
    TrimUnchanged(family);
    SplitNoSeparator(family, ' ');
  }

  /** In "Given Family" without a comma it is the last word. */
  lemma LastNameOfGivenFirst(given: string, family: string)
    requires given != [] && !IsSpace(given[0]) && ',' !in given
    requires family != [] && forall c :: c in family ==> c != ',' && c != ' ' && !IsSpace(c)
    ensures LastName(given + " " + family) == family
  {
    var name := given + " " + family;
    assert name == given + [' '] + family;
    assert name[0] == given[0] && name[|name| - 1] == family[|family| - 1];
    assert ',' !in name;
    SplitNoSeparator(name, ',');
    TrimUnchanged(name);
    SplitEndsWith(given, ' ', family);
  }

  /** The picture of "Hofmeyer, Herm" is named after "Hofmeyer". */
  lemma LastNameExample()
    ensures LastName("Hofmeyer, Herm") == "Hofmeyer"
  {
    var family, given := "Hofmeyer", " Herm";
    assert family + "," + given == "Hofmeyer, Herm";
    LastNameOfFamilyFirst(family, given);
  }

  // ---------------------------------------------------------------------
  // Lookup by key

  /** `articles.find(a => a.key === k)`: the first record with that key, of
      whatever type; `None` where the source reads a field of `undefined`. */
  function Find(store: seq<Record>, k: string): (r: Option<Record>)
    ensures r.None? <==> forall i :: 0 <= i < |store| ==> !HasKey(store[i], k)
    ensures r.Some? ==> exists i :: && 0 <= i < |store| && store[i] == r.value && HasKey(store[i], k)
                                    && forall j :: 0 <= j < i ==> !HasKey(store[j], k)
    decreases |store|
  {
    if store == [] then None
    else if HasKey(store[0], k) then Some(store[0])
    else
      var rest := Find(store[1..], k);
      assert forall i :: 1 <= i < |store| ==> store[i] == store[1..][i - 1];
      rest
  }

  /** A key shared by two records resolves to the earlier one, whatever the
      types: the store is searched part by part. */
  lemma {:induction false} FindAppend(s1: seq<Record>, s2: seq<Record>, k: string)
    ensures Find(s1 + s2, k) == if Find(s1, k).Some? then Find(s1, k) else Find(s2, k)
    decreases |s1|
  {
    if s1 == [] {
      assert s1 + s2 == s2;
    } else {
      FindAppend(s1[1..], s2, k);
      assert (s1 + s2)[0] == s1[0];
      assert (s1 + s2)[1..] == s1[1..] + s2;
    }
  }
}
