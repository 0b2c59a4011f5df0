# A verified model of the research website's bibliography script

The site's `scripts.js` holds its publications as a BibTeX-like text and does
three things with it when the page loads:

- `parseBibtex` turns the text into records;
- `populatePeople` builds the people tiles from the authors;
- the `populate…` functions fill four sections: articles, PhD theses, master's theses and conferences.

After loading, clicking a person runs `filterArticles`, which narrows the four
sections to that person's work. `resetArticles` restores them. The two modals
look a record up by its key.

This project models that pipeline in Dafny and proves what it does:

- `text.dfy` (module `Text`): the JavaScript string built-ins the script uses:
  - `trim` and the `\s` class, both with the exact ECMAScript white-space set;
  - `includes`;
  - `split` on a literal separator;
  - the `replace(/[{}"]/g, '')` clean-up.
- `bibtex.dfy` (module `Bibtex`): `parseBibtex`.
  - The cut at `/\n\s*@/`, and the header and key regular expressions, are
    modelled as scanners.
  - Their contracts state the regular-expression semantics: leftmost match,
    greedy body, a `\w+` run that cannot backtrack.
  - The field reducer is modelled as a loop that updates a dictionary.
  - A record is a `map<string, string>`: the JavaScript object `{type, ...fields}`.
    A field named `__proto__` is never stored. On a plain object,
    `acc['__proto__'] = value` calls the prototype setter, which ignores a string.
- `catalog.dfy` (module `Catalog`): the computations over the records:
  - the type groupings and the `{key, title, description, author, year}` projection;
  - the substring author filter;
  - the people index (a `Set`, which iterates in insertion order), built by nested loops;
  - the last-name token used for a person's picture;
  - `find` by key.
- `page.dfy` (module `Site`): the page after `init`, as a class.
  - The store and the people are assigned once.
  - The four sections and the reset-button state (`All` / `Filtered`) are
    updated by `Select` (`filterArticles`) and `Reset` (`resetArticles`).
  - `Init` parses and builds the page.
- `wrappers.dfy` (module `Wrappers`): `Option` and `Result`.

Where the script can throw, the model returns an explicit failure instead:

- A header whose key pattern does not match: the script reads `[2]` of `null`
  (scripts.js:96). This is `Failure(KeyMissing(entry))`.
- A record without `author`: `populatePeople` throws at scripts.js:170.
  `PopulatePeople` returns `None` and `Init` returns `null`.
- A key that no record has: the modal reads a field of `undefined`.
  `Find` returns `None`.

The model follows the code, including its quirks:

- `slice(1)` discards the first fragment. Because the text is trimmed first,
  that fragment is the whole first entry. The shipped data therefore shows
  five of its six entries. `LeadingEntryDropped` proves that the first entry
  has no effect on the result. It holds whatever white space separates the
  newline from the `@`, including the indentation of the shipped data.
- A field piece is split on every `=`, not only the first. Its value ends at
  the second `=` (`ValueStopsAtSecondEquals`).
- Name and value are trimmed before the braces and quotes are removed, and not
  again afterwards. So `{ x }` becomes ` x ` (`BracedValueNotRetrimmed`).
- The lookup ignores the entry type. A key shared by two entries resolves to
  the earlier one (`Find`, `FindAppend`).
- A body field named `type` replaces the header type. A body field named `key`
  is replaced by the header key (`MakeRecord`).

## Model

| member | source | states |
|---|---|---|
| Text.SkipSpaces | scripts.js:82 | the first index at or after `i` that is not white space; everything skipped is white space |
| Text.SkipSpacesBack | scripts.js:82 | the start of the run of white space that ends at `j`, never below `lo` |
| Text.Trim | scripts.js:82 | the result has no white space at either end and is a slice of the input with only white space around it |
| Text.TrimUnchanged | scripts.js:84 | text with no white space at either end is its own trim |
| Text.TrimKeepsChars | scripts.js:90 | every character of the trim comes from the input |
| Text.OccursInPrefix | scripts.js:252 | an occurrence inside a prefix is an occurrence in the whole text that ends inside the prefix |
| Text.OccursInSuffix | scripts.js:252 | an occurrence in a suffix is an occurrence in the whole text, shifted |
| Text.IndexOf | scripts.js:252 | returns the first index where the pattern occurs, or `None` exactly when it occurs nowhere |
| Text.Includes | scripts.js:252 | `includes` is true exactly when the pattern occurs at some index |
| Text.IncludesTransitive | scripts.js:252 | if `s` contains `mid` and `mid` contains `sub`, then `s` contains `sub` |
| Text.Split | scripts.js:89 | `split` always returns at least one piece |
| Text.SplitPiecesExcludeSeparator | scripts.js:89 | no piece of a split contains the separator |
| Text.JoinLast | scripts.js:103 | a joined text ends with the last piece, after the separator when there are several pieces |
| Text.SplitJoin | scripts.js:89 | joining the pieces with the separator gives back the text |
| Text.SplitWithout | scripts.js:170 | text that does not contain the separator splits into itself |
| Text.SplitAtFirstSep | scripts.js:170 | the text is cut at the first occurrence of the separator, and splitting goes on after it |
| Text.SplitNoSeparator | scripts.js:90 | text without a one-character separator splits into itself |
| Text.SplitAtFirst | scripts.js:90 | a one-character separator cuts the text at its first occurrence |
| Text.SplitEndsWith | scripts.js:103 | the last piece is the text after the last separator |
| Text.SplitPiecesFree | scripts.js:103 | no piece of a split on one character contains that character |
| Text.SplitKeepsChars | scripts.js:103 | every character of a piece comes from the text |
| Text.JoinKeepsChars | scripts.js:103 | every character of a piece occurs in the joined text |
| Text.Strip | scripts.js:90 | the clean-up keeps exactly the characters that are not braces or double quotes, and drops every brace and quote |
| Text.StripAppend | scripts.js:90 | the clean-up works character by character: it distributes over concatenation |
| Bibtex.DelimiterEndUnique | scripts.js:82 | a `\n\s*@` match that starts at one index ends at only one place |
| Bibtex.DelimiterEnd | scripts.js:82 | a delimiter starting at `p` is found exactly when `/\n\s*@/` matches there |
| Bibtex.FindDelimiter | scripts.js:82 | returns the leftmost delimiter at or after `from`, or `None` when there is none |
| Bibtex.DelimiterInPrefix | scripts.js:82 | a delimiter inside a prefix is a delimiter of the whole text that ends inside the prefix, and the converse |
| Bibtex.SplitEntries | scripts.js:82 | `split(/\n\s*@/)` gives at least one fragment, and no fragment contains a delimiter |
| Bibtex.SplitEntriesSingle | scripts.js:82 | text without a delimiter is one fragment |
| Bibtex.SplitEntriesAfterLead | scripts.js:82 | for any delimiter `\n`, white space, `@`: the text before the first one is the first fragment, and the rest is cut as if it were the whole text |
| Bibtex.FirstDelimiter | scripts.js:82 | every text that holds a delimiter is a lead, a first delimiter and a rest meeting the conditions of `SplitEntriesAfterLead`; with `SplitEntriesSingle` this fixes the fragments of every text |
| Bibtex.WordEnd | scripts.js:85 | the end of the maximal run of `\w` characters starting at `i` |
| Bibtex.LastIndexOf | scripts.js:85 | the last index holding a character, or `None` when it is absent |
| Bibtex.IndexOfChar | scripts.js:96 | the first index at or after `from` holding a character, or `None` when there is none |
| Bibtex.TypeAtWordEnd | scripts.js:85 | `(\w+)\{` cannot backtrack: the type group is the whole run of word characters |
| Bibtex.TypeAtProbe | scripts.js:85 | at most one `@(\w+)\{` match starts at `i`, and it is found when it exists |
| Bibtex.HeaderAt | scripts.js:85 | `/@(\w+)\{([^]+)\}/` tried at one index: finds the match with the body up to the last `}`, or proves there is none |
| Bibtex.HeaderFrom | scripts.js:85 | the leftmost header match at or after `from`, or `None` when there is none |
| Bibtex.MatchHeader | scripts.js:85 | `entry.match` of the header pattern: the leftmost match, and there the longest body, or `None` exactly when nothing matches |
| Bibtex.KeyAt | scripts.js:96 | `/@(\w+)\{([^,]+),/` tried at one index: the key runs from the `{` to the first comma, or there is no match there |
| Bibtex.KeyFrom | scripts.js:96 | the leftmost key match at or after `from`, or `None` when there is none |
| Bibtex.MatchKey | scripts.js:96 | `entry.match` of the key pattern: the leftmost match, or `None` exactly when nothing matches |
| Bibtex.HeaderMatchUnique | scripts.js:85 | the leftmost-longest semantics pick one header match at most |
| Bibtex.Normalize | scripts.js:90 | a normalised name or value holds only characters of its piece, and no brace or quote |
| Bibtex.FieldOf | scripts.js:90-93 | a kept field has a non-empty name and value, with no brace, quote or `=` |
| Bibtex.FieldOfPair | scripts.js:90-93 | a piece `n=v` with one `=` gives the pair of the normalised sides, kept exactly when both are non-empty |
| Bibtex.FieldOfNoEquals | scripts.js:90-91 | a piece without `=` yields no field |
| Bibtex.FieldsOfPieces | scripts.js:89-90 | yields one field result per body piece, in order |
| Bibtex.Collect | scripts.js:89-95 | every stored pair is the pair of some piece, and `__proto__` is never stored |
| Bibtex.Fields | scripts.js:89-95 | every stored field name and value is non-empty and holds no brace, quote or `=` |
| Bibtex.CollectDomain | scripts.js:91-92 | a name is stored exactly when it is not `__proto__` and some piece yields it |
| Bibtex.CollectLastWins | scripts.js:92 | a repeated name other than `__proto__` keeps the value of its last piece |
| Bibtex.CollectSnoc | scripts.js:92 | one more piece stores its pair, overwriting an earlier value of that name, unless the name is `__proto__` or the piece yields nothing |
| Bibtex.NormalizeBody | scripts.js:89-95 | the accumulating loop over the pieces computes the fields of the body |
| Bibtex.ValueStopsAtSecondEquals | scripts.js:90 | everything after the second `=` of a piece is lost |
| Bibtex.BracedValueNotRetrimmed | scripts.js:90 | a braced value keeps the white space inside its braces: trimming comes before the clean-up |
| Bibtex.MakeRecord | scripts.js:96-97 | the record holds the body fields plus `type` and `key`; `key` is always the header key; `type` is the body's `type` field if there is one, otherwise the header type; other fields are unchanged |
| Bibtex.MakeRecordWellFormed | scripts.js:96-97 | a record built from a non-empty type, a comma-free key and clean fields is well formed |
| Bibtex.EntryWellFormed | scripts.js:85-97 | the record of an entry whose header and key patterns both matched is well formed |
| Bibtex.ParseEntry | scripts.js:84-97 | a kept entry is well formed, and is the record of its leftmost-longest header match and its leftmost key match |
| Bibtex.ParseEntryDropped | scripts.js:85-88 | a fragment is dropped exactly when the header pattern matches nowhere in it |
| Bibtex.ParseEntryThrows | scripts.js:96 | a fragment throws exactly when the header pattern matches and the key pattern does not; the error carries the entry |
| Bibtex.EntriesOf | scripts.js:83 | the `map` step: one result per fragment, in order |
| Bibtex.Combine | scripts.js:98 | the `filter` step: no more records than fragments, and each record is the entry of some fragment |
| Bibtex.CombineSingle | scripts.js:83-98 | one fragment yields its record, nothing when it is dropped, or its error |
| Bibtex.CombineAt | scripts.js:98 | every kept entry is returned, after the entries of the fragments before it and before those after it |
| Bibtex.CombineAppend | scripts.js:83-98 | the records of a concatenation are the records of each part, in order, unless a part throws |
| Bibtex.CombineThrows | scripts.js:83-96 | the parse throws exactly when some fragment throws, and with the error of the first one |
| Bibtex.ParseFragments | scripts.js:83-98 | no more records than fragments, each well formed |
| Bibtex.ParseFragmentsAppend | scripts.js:83-98 | fragments are parsed in order: the records of a concatenation are the records of each part, unless a part throws |
| Bibtex.ParseFragmentsSingle | scripts.js:83-98 | one fragment parsed alone yields its record, nothing when it is dropped, or its error |
| Bibtex.ParseFragmentsSplit | scripts.js:83-98 | a parse that succeeds over a concatenation succeeds over each part, and its records are theirs in order |
| Bibtex.ParseFragmentsCons | scripts.js:83-98 | a fragment that yields a record puts it before the records of the fragments after it |
| Bibtex.ParseFragmentsKeeps | scripts.js:83-98 | every fragment that yields a record contributes it, between the records of the fragments before and after it |
| Bibtex.ParseTrimmed | scripts.js:82-98 | the parse of trimmed text returns fewer records than fragments, each well formed |
| Bibtex.LeadingEntryDropped | scripts.js:82 | the first entry never appears, whatever white space its delimiter holds: the result depends only on the text after the first delimiter |
| Bibtex.SingleEntryYieldsNothing | scripts.js:82 | text holding a single entry yields no record |
| Bibtex.Parse | scripts.js:81-100 | `parseBibtex`: fewer records than fragments (the first is always discarded), each well formed |
| Bibtex.ParseTrimmedKeeps | scripts.js:82-98 | on trimmed text, every fragment after the first that yields a record contributes it, in text order |
| Bibtex.ParseKeeps | scripts.js:81-100 | when `parseBibtex` succeeds, every entry after the first that yields a record is returned, in text order |
| Catalog.Get | scripts.js:181 | reading a field is defined exactly when the record has it |
| Catalog.OfType | scripts.js:181 | a grouping holds exactly the records of the store whose type equals its literal |
| Catalog.OfTypeAppend | scripts.js:202 | a grouping keeps store order: filtering distributes over concatenation |
| Catalog.OfTypeIdempotent | scripts.js:255-256 | filtering twice by the same type changes nothing |
| Catalog.Summarize | scripts.js:181 | a summary carries the record's key, title, note, author and year; a missing year becomes `''` |
| Catalog.Project | scripts.js:191 | the projection keeps every record, one summary each, in order |
| Catalog.ProjectShows | scripts.js:181 | a summary section shows the summary of every record of its type, and only those |
| Catalog.Populate | scripts.js:223-227 | the articles section holds exactly the records of type `article`; each other section shows exactly the summaries of the records of its type; a record of any other type is in no section |
| Catalog.ByAuthor | scripts.js:252 | the author filter keeps only records from the store whose author contains the selected text |
| Catalog.ByAuthorMembers | scripts.js:252 | a record is selected exactly when it is in the store and its author contains the text |
| Catalog.OfTypeByAuthor | scripts.js:255 | the combined type and author filter never grows the store |
| Catalog.OfTypeByAuthorSplits | scripts.js:255-261 | the combined filter is the author filter followed by the type filter |
| Catalog.Filter | scripts.js:251-262 | `filterArticles(a)` shows exactly what the unfiltered page would show for the records whose author contains `a`, drawn from the full store |
| Catalog.SectionOfSelection | scripts.js:255-262 | each filtered section equals the type filter over the selected records |
| Catalog.FilterEmptyShowsAll | scripts.js:251-262 | selecting the empty text shows everything |
| Catalog.ByAuthorEmpty | scripts.js:252 | every author contains the empty text |
| Catalog.ByAuthorNarrows | scripts.js:252 | if `b` contains `a`, filtering the `a`-selection by `b` equals filtering the store by `b`: "Anna" selects part of what "Ann" selects |
| Catalog.AuthorNames | scripts.js:170-171 | an author field gives one name per ` and `-separated piece, that piece trimmed, so each name has no white space at either end |
| Catalog.AuthorNamesSingle | scripts.js:170-171 | a field without ` and ` names one author, the trimmed field |
| Catalog.AuthorNamesCons | scripts.js:170-171 | the first name is the trimmed text before the first ` and `, and the rest are the names of the text after it |
| Catalog.FlattenMembers | scripts.js:169-171 | a name is in the concatenated lists exactly when it is in one of them |
| Catalog.AuthorLists | scripts.js:170 | one list of trimmed names per record, in store order |
| Catalog.Names | scripts.js:169-171 | a name is listed exactly when it is a trimmed piece of some record's author |
| Catalog.Insert | scripts.js:171 | `Set.add` adds the value and loses nothing |
| Catalog.FirstIndex | scripts.js:171 | the first index at which a name occurs |
| Catalog.FirstIndexPrefix | scripts.js:171 | appending names does not move a first occurrence |
| Catalog.InsertAll | scripts.js:168-171 | the set never holds more names than were inserted |
| Catalog.InsertAllSnoc | scripts.js:171 | inserting one more name is one more `add` |
| Catalog.InsertAllMembers | scripts.js:168-171 | the set holds exactly the inserted names |
| Catalog.DistinctSnoc | scripts.js:171 | adding a name that is not yet there keeps the set free of repeats |
| Catalog.InsertAllDistinct | scripts.js:168-171 | the set holds each name once |
| Catalog.OrderExtend | scripts.js:171 | adding a name keeps the earlier order |
| Catalog.OrderAppendNew | scripts.js:171 | a new name goes after all earlier ones |
| Catalog.InsertAllOrder | scripts.js:168-171 | the set iterates in order of first insertion |
| Catalog.People | scripts.js:167-172 | the people index holds exactly the author names of the store |
| Catalog.PeopleIndex | scripts.js:167-172 | the people index has no duplicates and lists the names in order of first appearance |
| Catalog.NamesSnoc | scripts.js:169-171 | one more record appends its trimmed author names |
| Catalog.AddAuthors | scripts.js:170-171 | the inner `forEach` adds the trimmed names of one author field, in order |
| Catalog.PopulatePeople | scripts.js:167-172 | the nested loops fail exactly when a record has no author; otherwise they build the people index |
| Catalog.LastName | scripts.js:103 | the last-name token holds no comma and no space |
| Catalog.LastNameIsLastWord | scripts.js:103 | the trimmed text before the first comma is the token, preceded by nothing or by a space: the token is its last word |
| Catalog.LastWordFree | scripts.js:103 | the last word of the text before the first comma holds no comma and no space |
| Catalog.LastNameOfFamilyFirst | scripts.js:103 | for "Family, Given" the token is the family name |
| Catalog.LastNameOfGivenFirst | scripts.js:103 | for "Given Family" without a comma the token is the last word |
| Catalog.LastNameExample | scripts.js:103 | "Hofmeyer, Herm" gives "Hofmeyer" |
| Catalog.Find | scripts.js:276 | `find` returns the first record with that key, whatever its type, and `None` exactly when no record has that key |
| Catalog.FindAppend | scripts.js:291 | a key found in an earlier part of the store hides every later record with that key |
| Site.Page.constructor | scripts.js:221-227 | after `init` every section shows the whole store and the reset button is hidden |
| Site.Page.Select | scripts.js:251-265 | `filterArticles(a)` shows the filtered sections, computed from the whole store whatever was shown before, and shows the reset button |
| Site.Page.Reset | scripts.js:267-273 | `resetArticles` shows the whole store again and hides the reset button |
| Site.Page.ModalAuthors | scripts.js:276-277 | a modal lists the trimmed author names of the record found by key, and every one is a person of the index; `None` when no record has the key |
| Site.Init | scripts.js:221-230 | returns `null` exactly when parsing throws or a record has no author; otherwise the page shows the whole store and the reset button is hidden |

## Left out

- DOM construction and mutation are not modelled, because they are presentation only:
  - the `create…Tile` functions (scripts.js:102-165);
  - `innerHTML`, `appendChild` and `getElementById`;
  - the `DOMContentLoaded` listener.

  The sections are modelled by the lists they display.
- Toast and modal display through jQuery (scripts.js:232-249, 279-305) are
  foreign library calls. Only the author links a modal computes are modelled
  (`ModalAuthors`).
- Image paths and the HTML and `onclick` strings built around names and keys
  are markup. Only the `lastName` token that names a picture is modelled.
- `populateArticles` also assigns an undeclared global `only_articles`.
  Nothing outside `populateArticles` reads it. Its value is the articles
  section, `OfType(records, "article")`.
- JavaScript strings are sequences of UTF-16 code units, while Dafny `char`s
  are Unicode scalar values. Text outside the Basic Multilingual Plane is
  therefore not modelled code unit by code unit.
- The order of a JavaScript object's own properties is not modelled: a record is a map.
- Catalog.Summary: a projected object keeps its identity in the source, so the
  surrounding `Set` never merges two of them. The model keeps every summary in
  a sequence and does not model object identity.
- Text.Split: the empty separator is not modelled. The script only splits on
  non-empty literals.
- Text.IndexOf: the empty pattern is not modelled. `Includes` handles it
  directly: the empty text is contained in every text.
- Site.Page.ModalAuthors is the lookup of `showArticleModal` as well
  (scripts.js:291-292). The two handlers differ only in the markup they build.
