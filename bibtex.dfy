/**
 * The BibTeX-subset parser of the site's script (`parseBibtex`): the text is
 * cut into fragments at every newline-white-space-`@`, each fragment's header
 * gives the entry type, body and key, and the body is cut into `name = value`
 * fields. The two regular expressions of the parser are modelled by scanners
 * whose contracts state the regular-expression semantics they implement
 * (leftmost match, greedy groups).
 */
module Bibtex {
  import opened Wrappers
  import opened Text

  // ---------------------------------------------------------------------
  // Cutting the text into fragments: `split(/\n\s*@/)`

  /** `/\n\s*@/` matches `s[p..q + 1]`. */
  ghost predicate DelimiterAt(s: string, p: int, q: int) {
    && 0 <= p < q < |s| && s[p] == '\n' && s[q] == '@'
    && forall k :: p < k < q ==> IsSpace(s[k])
  }

  /** A delimiter that starts at `p` ends at one place only: the first `@` after the white space. */
  lemma DelimiterEndUnique(s: string, p: int, q1: int, q2: int)
    requires DelimiterAt(s, p, q1) && DelimiterAt(s, p, q2)
    ensures q1 == q2
  {
  }

  /** `s` holds no newline-white-space-`@` sequence. */
  ghost predicate DelimiterFree(s: string) {
    forall p, q :: !DelimiterAt(s, p, q)
  }

  /** Where a delimiter starting at `p` ends (just past its `@`), if one starts there. */
  function DelimiterEnd(s: string, p: nat): (r: Option<nat>)
    requires p < |s|
    ensures r.Some? ==> p + 2 <= r.value <= |s| && DelimiterAt(s, p, r.value - 1)
    ensures r.None? ==> forall q :: !DelimiterAt(s, p, q)
  {
    if s[p] != '\n' then None
    else
      var q := SkipSpaces(s, p + 1);
      forall q' | DelimiterAt(s, p, q')
        ensures q' == q
      {
      }
      if q < |s| && s[q] == '@' then Some(q + 1) else None
  }

  /** The leftmost delimiter at or after `from`, as (start, end). */
  function FindDelimiter(s: string, from: nat): (r: Option<(nat, nat)>)
    requires from <= |s|
    ensures r.Some? ==>
      && from <= r.value.0 && r.value.0 + 2 <= r.value.1 <= |s|
      && DelimiterAt(s, r.value.0, r.value.1 - 1)
      && forall p, q :: from <= p < r.value.0 ==> !DelimiterAt(s, p, q)
    ensures r.None? ==> forall p, q :: from <= p ==> !DelimiterAt(s, p, q)
    decreases |s| - from
  {
    if from == |s| then None
    else match DelimiterEnd(s, from)
      case Some(e) => Some((from, e))
      case None => FindDelimiter(s, from + 1)
  }

  /** Delimiters inside a prefix are those of the whole text that end before the prefix does. */
  lemma DelimiterInPrefix(s: string, n: int, p: int, q: int)
    requires 0 <= n <= |s|
    ensures DelimiterAt(s[..n], p, q) <==> DelimiterAt(s, p, q) && q < n
  {
  }

  /** `s.split(/\n\s*@/)`: the fragments between the delimiters. */
  function SplitEntries(s: string): (r: seq<string>)
    ensures |r| > 0
    ensures forall i :: 0 <= i < |r| ==> DelimiterFree(r[i])
    decreases |s|
  {
    match FindDelimiter(s, 0)
    case None => [s]
    case Some((p, e)) =>
      forall p', q' | DelimiterAt(s[..p], p', q')
        ensures false
      {
        DelimiterInPrefix(s, p, p', q');
      }
      [s[..p]] + SplitEntries(s[e..])
  }

  /** Text that opens with an entry and holds no delimiter is a single fragment. */
  lemma SplitEntriesSingle(s: string)
    requires DelimiterFree(s)
    ensures SplitEntries(s) == [s]
  {
    match FindDelimiter(s, 0)
    case None =>
    case Some((p, e)) =>
  }

  /** `w` is made of white space only. */
  ghost predicate AllSpace(w: string) {
    forall k :: 0 <= k < |w| ==> IsSpace(w[k])
  }

  /** No newline of `a` is followed by nothing but white space up to the end
      of `a`: a delimiter that begins inside `a` also ends inside it. */
  ghost predicate NoOpenTail(a: string) {
    forall p :: 0 <= p < |a| && a[p] == '\n' ==> !AllSpace(a[p + 1..])
  }

  /** Whatever precedes the first delimiter is the first fragment, and the rest
      is cut as if that delimiter had opened the text, whatever white space it
      holds between its newline and its `@`. */
  lemma SplitEntriesAfterLead(a: string, w: string, b: string)
    requires DelimiterFree(a) && NoOpenTail(a) && AllSpace(w)
    ensures SplitEntries(a + "\n" + w + "@" + b) == [a] + SplitEntries(b)
  {
    var s := a + "\n" + w + "@" + b;
    var n, q := |a|, |a| + 1 + |w|;
    assert s[..n] == a;
    assert s[n] == '\n' && s[q] == '@';
    assert forall k :: n < k < q ==> s[k] == w[k - n - 1];
    assert DelimiterAt(s, n, q);
    forall p, q' | 0 <= p < n
      ensures !DelimiterAt(s, p, q')
    {
      if q' < n {
        DelimiterInPrefix(s, n, p, q');
      } else if a[p] == '\n' {
        var k :| 0 <= k < |a[p + 1..]| && !IsSpace(a[p + 1..][k]);
        assert s[p + 1 + k] == a[p + 1..][k];
      }
    }
    match FindDelimiter(s, 0)
    case None =>
    case Some((p, e)) =>
      DelimiterEndUnique(s, n, q, e - 1);
      assert s[e..] == b;
  }

  /** Text that holds a delimiter is a lead, its first delimiter and the rest:
      with `SplitEntriesSingle` and `SplitEntriesAfterLead` this fixes the
      fragments of every text. */
  lemma FirstDelimiter(s: string) returns (a: string, w: string, b: string)
    requires !DelimiterFree(s)
    ensures s == a + "\n" + w + "@" + b
    ensures DelimiterFree(a) && NoOpenTail(a) && AllSpace(w)
  {
    var r := FindDelimiter(s, 0);
    assert r.Some?;
    var (p, e) := r.value;
    a, w, b := s[..p], s[p + 1..e - 1], s[e..];
    assert s == a + "\n" + w + "@" + b;
    forall p', q' | true
      ensures !DelimiterAt(a, p', q')
    {
      DelimiterInPrefix(s, p, p', q');
    }
    forall p' | 0 <= p' < |a| && a[p'] == '\n'
      ensures !AllSpace(a[p' + 1..])
    {
      assert !DelimiterAt(s, p', e - 1);
      var k :| p' < k < e - 1 && !IsSpace(s[k]);
      assert k < p;
      assert a[p' + 1..][k - p' - 1] == s[k];
    }
  }

  // ---------------------------------------------------------------------
  // Matching the two header patterns

  /** The end of the run of word characters that starts at `i`. */
  function WordEnd(s: string, i: nat): (r: nat)
    requires i <= |s|
    ensures i <= r <= |s|
    ensures forall k :: i <= k < r ==> IsWordChar(s[k])
    ensures r == |s| || !IsWordChar(s[r])
    decreases |s| - i
  {
    if i < |s| && IsWordChar(s[i]) then WordEnd(s, i + 1) else i
  }

  /** The last index holding `c`. */
  function LastIndexOf(s: string, c: char): (r: Option<nat>)
    ensures r.Some? ==> r.value < |s| && s[r.value] == c && forall k :: r.value < k < |s| ==> s[k] != c
    ensures r.None? ==> forall k :: 0 <= k < |s| ==> s[k] != c
  {
    if s == [] then None
    else if s[|s| - 1] == c then Some(|s| - 1)
    else LastIndexOf(s[..|s| - 1], c)
  }

  /** The first index at or after `from` holding `c`. */
  function IndexOfChar(s: string, c: char, from: nat): (r: Option<nat>)
    requires from <= |s|
    ensures r.Some? ==> from <= r.value < |s| && s[r.value] == c && forall k :: from <= k < r.value ==> s[k] != c
    ensures r.None? ==> forall k :: from <= k < |s| ==> s[k] != c
    decreases |s| - from
  {
    if from == |s| then None
    else if s[from] == c then Some(from)
    else IndexOfChar(s, c, from + 1)
  }

  /** Where a match of one of the two header patterns lies: the `@` at `at`,
      the `{` at `open`, and the second group running up to `close`. The
      `(\w+)` group is `e[at + 1..open]`, the second group `e[open + 1..close]`. */
  datatype Span = Span(at: nat, open: nat, close: nat)

  /** `@(\w+)\{` matches `e[i..w + 1]`. */
  ghost predicate TypeAt(e: string, i: int, w: int) {
    && 0 <= i && i + 1 < w < |e| && e[i] == '@' && e[w] == '{'
    && forall k :: i < k < w ==> IsWordChar(e[k])
  }

  /** `/@(\w+)\{([^]+)\}/` matches `e[i..c + 1]`. */
  ghost predicate HeaderMatchAt(e: string, i: int, w: int, c: int) {
    TypeAt(e, i, w) && w + 1 < c < |e| && e[c] == '}'
  }

  /** `/@(\w+)\{([^,]+),/` matches `e[i..c + 1]`. */
  ghost predicate KeyMatchAt(e: string, i: int, w: int, c: int) {
    && TypeAt(e, i, w) && w + 1 < c < |e| && e[c] == ','
    && forall k :: w < k < c ==> e[k] != ','
  }

  /** The `(\w+)` group cannot backtrack: it is the whole run of word characters. */
  lemma TypeAtWordEnd(e: string, i: int, w: int)
    requires TypeAt(e, i, w)
    ensures WordEnd(e, i + 1) == w
  {
  }

  function TypeAtProbe(e: string, i: nat): (w: nat)
    requires i < |e|
    ensures i + 1 <= w <= |e|
    ensures forall w' :: TypeAt(e, i, w') ==> w' == w
    ensures e[i] == '@' && i + 1 < w < |e| && e[w] == '{' ==> TypeAt(e, i, w)
  {
    var w := WordEnd(e, i + 1);
    forall w' | TypeAt(e, i, w')
      ensures w' == w
    {
      TypeAtWordEnd(e, i, w');
    }
    w
  }

  /** The header pattern tried at `i`: the body group is greedy, so it runs to the last `}`. */
  function HeaderAt(e: string, i: nat): (r: Option<Span>)
    requires i < |e|
    ensures r.Some? ==>
      && r.value.at == i && HeaderMatchAt(e, i, r.value.open, r.value.close)
      && forall w, c :: HeaderMatchAt(e, i, w, c) ==> c <= r.value.close
    ensures r.None? ==> forall w, c :: !HeaderMatchAt(e, i, w, c)
  {
    var w := TypeAtProbe(e, i);
    if e[i] != '@' || w == i + 1 || w == |e| || e[w] != '{' then None
    else match LastIndexOf(e, '}')
      case None => None
      case Some(l) => if l < w + 2 then None else Some(Span(i, w, l))
  }

  /** The leftmost match of the header pattern at or after `from`. */
  function HeaderFrom(e: string, from: nat): (r: Option<Span>)
    requires from <= |e|
    ensures r.Some? ==>
      && from <= r.value.at && HeaderMatchAt(e, r.value.at, r.value.open, r.value.close)
      && (forall w, c :: HeaderMatchAt(e, r.value.at, w, c) ==> c <= r.value.close)
      && forall j, w, c :: from <= j < r.value.at ==> !HeaderMatchAt(e, j, w, c)
    ensures r.None? ==> forall j, w, c :: from <= j ==> !HeaderMatchAt(e, j, w, c)
    decreases |e| - from
  {
    if from == |e| then None
    else match HeaderAt(e, from)
      case Some(m) => Some(m)
      case None => HeaderFrom(e, from + 1)
  }

  /** `e.match(/@(\w+)\{([^]+)\}/)`: the leftmost match, with the longest body there. */
  function MatchHeader(e: string): (r: Option<Span>)
    ensures r.Some? ==>
      && HeaderMatchAt(e, r.value.at, r.value.open, r.value.close)
      && (forall w, c :: HeaderMatchAt(e, r.value.at, w, c) ==> c <= r.value.close)
      && forall j, w, c :: j < r.value.at ==> !HeaderMatchAt(e, j, w, c)
    ensures r.None? ==> forall j, w, c :: !HeaderMatchAt(e, j, w, c)
  {
    HeaderFrom(e, 0)
  }

  /** The key pattern tried at `i`: the key runs from the `{` to the first comma. */
  function KeyAt(e: string, i: nat): (r: Option<Span>)
    requires i < |e|
    ensures r.Some? ==> r.value.at == i && KeyMatchAt(e, i, r.value.open, r.value.close)
    ensures r.None? ==> forall w, c :: !KeyMatchAt(e, i, w, c)
  {
    var w := TypeAtProbe(e, i);
    if e[i] != '@' || w == i + 1 || w == |e| || e[w] != '{' then None
    else match IndexOfChar(e, ',', w + 1)
      case None => None
      case Some(c) => if c < w + 2 then None else Some(Span(i, w, c))
  }

  /** The leftmost match of the key pattern at or after `from`. */
  function KeyFrom(e: string, from: nat): (r: Option<Span>)
    requires from <= |e|
    ensures r.Some? ==>
      && from <= r.value.at && KeyMatchAt(e, r.value.at, r.value.open, r.value.close)
      && forall j, w, c :: from <= j < r.value.at ==> !KeyMatchAt(e, j, w, c)
    ensures r.None? ==> forall j, w, c :: from <= j ==> !KeyMatchAt(e, j, w, c)
    decreases |e| - from
  {
    if from == |e| then None
    else match KeyAt(e, from)
      case Some(m) => Some(m)
      case None => KeyFrom(e, from + 1)
  }

  /** `e.match(/@(\w+)\{([^,]+),/)`: the leftmost match. */
  function MatchKey(e: string): (r: Option<Span>)
    ensures r.Some? ==>
      && KeyMatchAt(e, r.value.at, r.value.open, r.value.close)
      && forall j, w, c :: j < r.value.at ==> !KeyMatchAt(e, j, w, c)
    ensures r.None? ==> forall j, w, c :: !KeyMatchAt(e, j, w, c)
  {
    KeyFrom(e, 0)
  }

  // ---------------------------------------------------------------------
  // Fields of a body

  /** Text that holds no brace, no double quote and no `=`. */
  ghost predicate IsCleanText(s: string) {
    forall c :: c in s ==> !IsBraceOrQuote(c) && c != '='
  }

  /** `str.trim().replace(/[{}"]/g, '')`: trimming comes first, so white space
      inside braces survives. */
  function Normalize(s: string): (r: string)
    ensures forall c :: c in r ==> c in s && !IsBraceOrQuote(c)
  {
    forall c | c in Trim(s)
      ensures c in s
    {
      TrimKeepsChars(s, c);
    }
    Strip(Trim(s))
  }

  /** One body piece `name = value`: every `=` cuts it and the second piece is
      the value; the field is kept only when name and value are both non-empty. */
  function FieldOf(piece: string): (r: Option<(string, string)>)
    ensures r.Some? ==> r.value.0 != "" && r.value.1 != "" && IsCleanText(r.value.0) && IsCleanText(r.value.1)
  {
    var parts := Split(piece, "=");
    SplitPiecesFree(piece, '=');
    if |parts| < 2 then None
    else
      var name := Normalize(parts[0]);
      var value := Normalize(parts[1]);
      if name != "" && value != "" then Some((name, value)) else None
  }

  /** A piece with a single `=` is the pair of its normalised sides, kept
      exactly when both sides are non-empty. */
  lemma FieldOfPair(name: string, value: string)
    requires '=' !in name && '=' !in value
    ensures FieldOf(name + "=" + value) ==
      if Normalize(name) != "" && Normalize(value) != "" then Some((Normalize(name), Normalize(value))) else None
  {
    assert name + "=" + value == name + ['='] + value;
    SplitAtFirst(name, '=', value);
    SplitNoSeparator(value, '=');
  }

  /** A piece without `=` yields no field. */
  lemma FieldOfNoEquals(piece: string)
    requires '=' !in piece
    ensures FieldOf(piece) == None
  {
    SplitNoSeparator(piece, '=');
  }

  /** What each body piece yields, piece by piece. */
  function FieldsOfPieces(pieces: seq<string>): (r: seq<Option<(string, string)>>)
    ensures |r| == |pieces| && forall i :: 0 <= i < |pieces| ==> r[i] == FieldOf(pieces[i])
  {
    seq(|pieces|, i requires 0 <= i < |pieces| => FieldOf(pieces[i]))
  }

  /** The one name that `acc[name] = value` does not store on a plain object:
      it goes to the prototype setter, which ignores a string. */
  const ProtoName := "__proto__"

  /** The reduction of the fields into one dictionary, left to right: every
      stored pair is the pair of some piece. */
  function Collect(fields: seq<Option<(string, string)>>): (m: map<string, string>)
    ensures ProtoName !in m
    ensures forall n :: n in m ==> exists i :: 0 <= i < |fields| && fields[i] == Some((n, m[n]))
    decreases |fields|
  {
    if fields == [] then map[]
    else
      var init := fields[..|fields| - 1];
      var m := Collect(init);
      assert forall i :: 0 <= i < |init| ==> init[i] == fields[i];
      match fields[|fields| - 1]
      case None => m
      case Some((n, v)) => if n == ProtoName then m else m[n := v]
  }

  /** The fields of an entry body, from its pieces between the comma-newline
      separators: every stored name and value is non-empty and holds no
      brace, no double quote and no `=` (the value stops at the piece's
      second `=`). */
  function Fields(body: string): (m: map<string, string>)
    ensures forall n :: n in m ==> n != "" && m[n] != "" && IsCleanText(n) && IsCleanText(m[n])
  {
    var pieces := Split(body, ",\n");
    var fields := FieldsOfPieces(pieces);
    var m := Collect(fields);
    forall n | n in m
      ensures n != "" && m[n] != "" && IsCleanText(n) && IsCleanText(m[n])
    {
      var i :| 0 <= i < |fields| && fields[i] == Some((n, m[n]));
      var field := FieldOf(pieces[i]);
      assert field == Some((n, m[n]));
    }
    m
  }

  /** A name other than `__proto__` is stored exactly when some piece yields it. */
  lemma {:induction false} CollectDomain(fields: seq<Option<(string, string)>>, n: string)
    ensures n in Collect(fields) <==>
      n != ProtoName && exists i :: 0 <= i < |fields| && fields[i].Some? && fields[i].value.0 == n
    decreases |fields|
  {
    if fields != [] {
      var init := fields[..|fields| - 1];
      CollectDomain(init, n);
      assert forall i :: 0 <= i < |init| ==> init[i] == fields[i];
    }
  }

  /** A repeated name keeps the value of its last piece. */
  lemma {:induction false} CollectLastWins(fields: seq<Option<(string, string)>>, i: int)
    requires 0 <= i < |fields| && fields[i].Some? && fields[i].value.0 != ProtoName
    requires forall j :: i < j < |fields| ==> fields[j].None? || fields[j].value.0 != fields[i].value.0
    ensures fields[i].value.0 in Collect(fields)
    ensures Collect(fields)[fields[i].value.0] == fields[i].value.1
    decreases |fields|
  {
    var init := fields[..|fields| - 1];
    if i < |fields| - 1 {
      assert init[i] == fields[i];
      forall j | i < j < |init|
        ensures init[j].None? || init[j].value.0 != init[i].value.0
      {
        assert init[j] == fields[j];
      }
      CollectLastWins(init, i);
    }
  }

  lemma TakeSnoc<T>(xs: seq<T>, i: int)
    requires 0 <= i < |xs|
    ensures xs[..i + 1] == xs[..i] + [xs[i]]
  {
  }

  /** One more step of the reduction: `acc[name] = value`, which the
      prototype setter ignores for `__proto__`. */
  lemma CollectSnoc(init: seq<Option<(string, string)>>, f: Option<(string, string)>)
    ensures f.None? || f.value.0 == ProtoName ==> Collect(init + [f]) == Collect(init)
    ensures f.Some? && f.value.0 != ProtoName ==> Collect(init + [f]) == Collect(init)[f.value.0 := f.value.1]
  {
    assert (init + [f])[..|init|] == init;
  }

  /** The source's accumulating loop over the body pieces (`reduce` with `acc[key] = value`). */
  method NormalizeBody(body: string) returns (acc: map<string, string>)
    ensures acc == Fields(body)
  {
    var pieces := Split(body, ",\n");
    ghost var fields := FieldsOfPieces(pieces);
    acc := map[];
    assert fields[..0] == [];
    var i := 0;
    while i < |pieces|
      invariant 0 <= i <= |pieces|
      invariant acc == Collect(fields[..i])
    {
      var field := FieldOf(pieces[i]);
      TakeSnoc(fields, i);
      CollectSnoc(fields[..i], field);
      if field.Some? && field.value.0 != ProtoName {
        acc := acc[field.value.0 := field.value.1];
      }
      assert acc == Collect(fields[..i + 1]);
      i := i + 1;
    }
    assert fields[..|pieces|] == fields;
  }

  /** Everything after a piece's second `=` is lost: the value is the text
      between the first and the second `=`. */
  lemma ValueStopsAtSecondEquals(name: string, value: string, rest: string)
    requires '=' !in name && '=' !in value
    ensures FieldOf(name + "=" + value + "=" + rest) == FieldOf(name + "=" + value)
  {
    SplitAtFirst(name, '=', value + "=" + rest);
    assert name + "=" + value + "=" + rest == name + ['='] + (value + "=" + rest);
    SplitAtFirst(value, '=', rest);
    assert value + "=" + rest == value + ['='] + rest;
    SplitAtFirst(name, '=', value);
    assert name + "=" + value == name + ['='] + value;
    SplitNoSeparator(value, '=');
  }

  /** Trimming comes before the clean-up: a braced value keeps the white space
      just inside its braces. */
  lemma BracedValueNotRetrimmed(v: string)
    ensures Normalize("{" + v + "}") == Strip(v)
  {
    var braced := "{" + v + "}";
    assert braced[0] == '{' && braced[|braced| - 1] == '}';
    TrimUnchanged(braced);
    StripAppend("{" + v, "}");
    StripAppend("{", v);
    assert Strip("}") == [];
    assert Strip("{") == [];
  }

  // ---------------------------------------------------------------------
  // Entries

  /** A parsed entry: the JavaScript object `{ type, ...fields }`. */
  type Record = map<string, string>

  /** The source throws when an entry whose header matched has no key: reading
      `[2]` of the `null` that `match` returns. */
  datatype ParseError = KeyMissing(entry: string)

  /** What every parsed record satisfies. */
  ghost predicate WellFormed(r: Record) {
    && "type" in r && "key" in r && r["type"] != "" && r["key"] != "" && ',' !in r["key"]
    && forall n :: n in r && n != "key" ==> n != "" && r[n] != "" && IsCleanText(n) && IsCleanText(r[n])
  }

  /** `{ type, ...fields }` once `fields.key = key` has run: the header key
      replaces a body field named `key`, while a body field named `type`
      replaces the header type, because the spread comes after it. */
  function MakeRecord(entryType: string, key: string, fields: map<string, string>): (r: Record)
    ensures r.Keys == fields.Keys + {"type", "key"}
    ensures r["key"] == key
    ensures r["type"] == if "type" in fields then fields["type"] else entryType
    ensures forall n :: n in fields && n != "key" ==> r[n] == fields[n]
  {
    map["type" := entryType] + fields["key" := key]
  }

  /** The record of an entry whose header and key patterns both matched is well formed. */
  lemma EntryWellFormed(e: string, h: Span, k: Span)
    requires HeaderMatchAt(e, h.at, h.open, h.close) && KeyMatchAt(e, k.at, k.open, k.close)
    ensures WellFormed(MakeRecord(e[h.at + 1..h.open], e[k.open + 1..k.close], Fields(e[h.open + 1..h.close])))
  {
    var body := e[h.open + 1..h.close];
    var entryType := e[h.at + 1..h.open];
    var key := e[k.open + 1..k.close];
    assert forall c :: c in entryType ==> IsWordChar(c);
    assert forall c :: c in key ==> c != ',';
    MakeRecordWellFormed(entryType, key, Fields(body));
  }

  lemma MakeRecordWellFormed(entryType: string, key: string, fields: map<string, string>)
    requires entryType != "" && IsCleanText(entryType) && key != "" && ',' !in key
    requires forall n :: n in fields ==> n != "" && fields[n] != "" && IsCleanText(n) && IsCleanText(fields[n])
    ensures WellFormed(MakeRecord(entryType, key, fields))
  {
  }

  /** `h` is the match `e.match(/@(\w+)\{([^]+)\}/)` returns: the leftmost
      start, and there the longest body. */
  ghost predicate IsHeaderMatch(e: string, h: Span) {
    && HeaderMatchAt(e, h.at, h.open, h.close)
    && (forall w, c :: HeaderMatchAt(e, h.at, w, c) ==> c <= h.close)
    && forall j, w, c :: j < h.at ==> !HeaderMatchAt(e, j, w, c)
  }

  /** `k` is the match `e.match(/@(\w+)\{([^,]+),/)` returns: the leftmost start. */
  ghost predicate IsKeyMatch(e: string, k: Span) {
    && KeyMatchAt(e, k.at, k.open, k.close)
    && forall j, w, c :: j < k.at ==> !KeyMatchAt(e, j, w, c)
  }

  /** The regular-expression semantics above pick one match at most. */
  lemma HeaderMatchUnique(e: string, h1: Span, h2: Span)
    requires IsHeaderMatch(e, h1) && IsHeaderMatch(e, h2)
    ensures h1 == h2
  {
    assert h1.at == h2.at;
    TypeAtWordEnd(e, h1.at, h1.open);
    TypeAtWordEnd(e, h2.at, h2.open);
  }

  /** `r` is the record built from the header match `h` and the key match `k` of `e`. */
  ghost predicate EntryFrom(e: string, h: Span, k: Span, r: Record) {
    && IsHeaderMatch(e, h) && IsKeyMatch(e, k)
    && r == MakeRecord(e[h.at + 1..h.open], e[k.open + 1..k.close], Fields(e[h.open + 1..h.close]))
  }

  /** One fragment: `'@' + fragment.trim()` matched against the header pattern;
      no match drops it (`None`), a match without a key throws. A kept entry
      is the record of its header match and key match: the type between `@`
      and `{`, the key between the first `{` and the first `,`, and the fields
      of the body up to the last `}`. */
  function ParseEntry(fragment: string): (r: Result<Option<Record>, ParseError>)
    ensures r.Success? && r.value.Some? ==> WellFormed(r.value.value)
    ensures r.Success? && r.value.Some? ==> exists h, k :: EntryFrom("@" + Trim(fragment), h, k, r.value.value)
  {
    var e := "@" + Trim(fragment);
    match MatchHeader(e)
    case None => Success(None)
    case Some(h) =>
      match MatchKey(e)
      case None => Failure(KeyMissing(e))
      case Some(k) =>
        EntryWellFormed(e, h, k);
        var record := MakeRecord(e[h.at + 1..h.open], e[k.open + 1..k.close], Fields(e[h.open + 1..h.close]));
        assert EntryFrom(e, h, k, record);
        Success(Some(record))
  }

  /** A fragment is dropped exactly when the header pattern matches nowhere in it. */
  lemma ParseEntryDropped(fragment: string)
    ensures ParseEntry(fragment) == Success(None) <==>
      forall j, w, c :: !HeaderMatchAt("@" + Trim(fragment), j, w, c)
  {
    var e := "@" + Trim(fragment);
    if MatchHeader(e).Some? {
      var h := MatchHeader(e).value;
      assert HeaderMatchAt(e, h.at, h.open, h.close);
    }
  }

  /** A fragment throws exactly when the header pattern matches but the key
      pattern does not; the whole entry text is reported. */
  lemma ParseEntryThrows(fragment: string)
    ensures ParseEntry(fragment).Failure? <==>
      && (exists j, w, c :: HeaderMatchAt("@" + Trim(fragment), j, w, c))
      && forall j, w, c :: !KeyMatchAt("@" + Trim(fragment), j, w, c)
    ensures ParseEntry(fragment).Failure? ==> ParseEntry(fragment).error == KeyMissing("@" + Trim(fragment))
  {
    var e := "@" + Trim(fragment);
    if MatchHeader(e).Some? {
      var h := MatchHeader(e).value;
      assert HeaderMatchAt(e, h.at, h.open, h.close);
      if MatchKey(e).Some? {
        var k := MatchKey(e).value;
        assert KeyMatchAt(e, k.at, k.open, k.close);
      }
    }
  }

  /** What each fragment yields, fragment by fragment (the `map` step). */
  function EntriesOf(fragments: seq<string>): (r: seq<Result<Option<Record>, ParseError>>)
    ensures |r| == |fragments| && forall i :: 0 <= i < |fragments| ==> r[i] == ParseEntry(fragments[i])
  {
    seq(|fragments|, i requires 0 <= i < |fragments| => ParseEntry(fragments[i]))
  }

  /** The kept entries in order, skipping dropped ones (the `filter` step); the
      first fragment that throws ends the parse. */
  function Combine(results: seq<Result<Option<Record>, ParseError>>): (r: Result<seq<Record>, ParseError>)
    ensures r.Success? ==> |r.value| <= |results|
    ensures r.Success? ==> forall x :: x in r.value ==> Success(Some(x)) in results
    decreases |results|
  {
    if results == [] then Success([])
    else match results[0]
      case Failure(err) => Failure(err)
      case Success(head) =>
        match Combine(results[1..])
        case Failure(err) => Failure(err)
        case Success(rest) => Success((if head.Some? then [head.value] else []) + rest)
  }

  /** Entries are taken fragment by fragment: the entries of a concatenation
      are the entries of each part, in order, unless one part throws. */
  lemma {:induction false} CombineAppend(r1: seq<Result<Option<Record>, ParseError>>, r2: seq<Result<Option<Record>, ParseError>>)
    ensures Combine(r1 + r2) ==
      match Combine(r1)
      case Failure(err) => Failure(err)
      case Success(e1) =>
        match Combine(r2)
        case Failure(err) => Failure(err)
        case Success(e2) => Success(e1 + e2)
    decreases |r1|
  {
    if r1 == [] {
      assert r1 + r2 == r2;
      if Combine(r2).Success? {
        assert [] + Combine(r2).value == Combine(r2).value;
      }
    } else {
      CombineAppend(r1[1..], r2);
      assert (r1 + r2)[0] == r1[0];
      assert (r1 + r2)[1..] == r1[1..] + r2;
      if r1[0].Success? && Combine(r1[1..]).Success? && Combine(r2).Success? {
        var head := if r1[0].value.Some? then [r1[0].value.value] else [];
        var rest := Combine(r1[1..]).value;
        assert (head + rest) + Combine(r2).value == head + (rest + Combine(r2).value);
      }
    }
  }

  /** A single fragment's result: its record when it yields one, nothing when it
      is dropped, its error when it throws. */
  lemma CombineSingle(o: Result<Option<Record>, ParseError>)
    ensures Combine([o]) ==
      match o
      case Failure(err) => Failure(err)
      case Success(head) => Success(if head.Some? then [head.value] else [])
  {
    assert [o][1..] == [];
    if o.Success? {
      var head := if o.value.Some? then [o.value.value] else [];
      assert head + [] == head;
    }
  }

  /** A sequence is its elements before i, the element at i and those after. */
  lemma Around<T>(s: seq<T>, i: int)
    requires 0 <= i < |s|
    ensures s == s[..i] + ([s[i]] + s[i + 1..])
  {
  }

  /** Slicing the tail of a sequence is slicing the sequence one further on. */
  lemma SliceOfTail<T>(s: seq<T>, i: int)
    requires 1 <= i < |s|
    ensures s[1..][i - 1] == s[i] && s[1..][..i - 1] == s[1..i] && s[1..][i..] == s[i + 1..]
  {
  }

  /** Results that succeed over a concatenation succeed over each part. */
  lemma CombineSplit(r1: seq<Result<Option<Record>, ParseError>>, r2: seq<Result<Option<Record>, ParseError>>)
    requires Combine(r1 + r2).Success?
    ensures Combine(r1).Success? && Combine(r2).Success?
    ensures Combine(r1 + r2).value == Combine(r1).value + Combine(r2).value
  {
    CombineAppend(r1, r2);
  }

  /** A kept entry comes before the entries of the results after it. */
  lemma CombineCons(o: Result<Option<Record>, ParseError>, rest: seq<Result<Option<Record>, ParseError>>)
    requires o.Success? && o.value.Some?
    requires Combine([o] + rest).Success?
    ensures Combine(rest).Success?
    ensures Combine([o] + rest).value == [o.value.value] + Combine(rest).value
  {
    CombineSplit([o], rest);
    CombineSingle(o);
  }

  /** Every kept entry is returned, at its place: when the parse succeeds, an
      entry yielded by the i-th fragment sits between the entries of the
      fragments before it and those of the fragments after it. */
  lemma CombineAt(results: seq<Result<Option<Record>, ParseError>>, i: int)
    requires 0 <= i < |results| && results[i].Success? && results[i].value.Some?
    requires Combine(results).Success?
    ensures Combine(results[..i]).Success? && Combine(results[i + 1..]).Success?
    ensures Combine(results).value ==
      Combine(results[..i]).value + [results[i].value.value] + Combine(results[i + 1..]).value
  {
    Around(results, i);
    CombineSplit(results[..i], [results[i]] + results[i + 1..]);
    CombineCons(results[i], results[i + 1..]);
  }

  /** The parse throws exactly when some fragment throws, and then with the
      error of the first such fragment. */
  lemma {:induction false} CombineThrows(results: seq<Result<Option<Record>, ParseError>>)
    ensures Combine(results).Failure? <==> exists i :: 0 <= i < |results| && results[i].Failure?
    ensures Combine(results).Failure? ==>
      exists i :: && 0 <= i < |results| && results[i] == Failure(Combine(results).error)
                  && forall j :: 0 <= j < i ==> results[j].Success?
    decreases |results|
  {
    if results != [] {
      CombineThrows(results[1..]);
      if results[0].Success? && Combine(results[1..]).Failure? {
        var i :| && 0 <= i < |results[1..]| && results[1..][i] == Failure(Combine(results[1..]).error)
                 && forall j :: 0 <= j < i ==> results[1..][j].Success?;
        assert results[i + 1] == Failure(Combine(results).error);
      }
      forall i | 1 <= i < |results|
        ensures results[i] == results[1..][i - 1]
      {
      }
    }
  }

  /** The entries of the fragments in order, each of them well formed. */
  function ParseFragments(fragments: seq<string>): (r: Result<seq<Record>, ParseError>)
    ensures r.Success? ==> |r.value| <= |fragments| && forall x :: x in r.value ==> WellFormed(x)
  {
    var results := EntriesOf(fragments);
    var r := Combine(results);
    forall x | r.Success? && x in r.value
      ensures WellFormed(x)
    {
      var i :| 0 <= i < |results| && results[i] == Success(Some(x));
      assert ParseEntry(fragments[i]) == Success(Some(x));
    }
    r
  }

  /** The results of a concatenation of fragments are the results of each part. */
  lemma EntriesOfAppend(f1: seq<string>, f2: seq<string>)
    ensures EntriesOf(f1 + f2) == EntriesOf(f1) + EntriesOf(f2)
  {
  }

  /** The results of the fragments before and after i are the results before
      and after i. */
  lemma EntriesOfSlices(fragments: seq<string>, i: int)
    requires 0 <= i < |fragments|
    ensures EntriesOf(fragments[..i]) == EntriesOf(fragments)[..i]
    ensures EntriesOf(fragments[i + 1..]) == EntriesOf(fragments)[i + 1..]
  {
  }

  /** Fragments are parsed one after the other: the entries of a concatenation
      are the entries of each part, in order, unless one part throws. */
  lemma ParseFragmentsAppend(f1: seq<string>, f2: seq<string>)
    ensures ParseFragments(f1 + f2) ==
      match ParseFragments(f1)
      case Failure(err) => Failure(err)
      case Success(e1) =>
        match ParseFragments(f2)
        case Failure(err) => Failure(err)
        case Success(e2) => Success(e1 + e2)
  {
    EntriesOfAppend(f1, f2);
    CombineAppend(EntriesOf(f1), EntriesOf(f2));
  }

  /** A fragment parsed alone: its record when it yields one, nothing when it
      is dropped, its error when it throws. */
  lemma ParseFragmentsSingle(f: string)
    ensures ParseFragments([f]) ==
      match ParseEntry(f)
      case Failure(err) => Failure(err)
      case Success(head) => Success(if head.Some? then [head.value] else [])
  {
    assert EntriesOf([f]) == [ParseEntry(f)];
    CombineSingle(ParseEntry(f));
  }

  /** A parse that succeeds over a concatenation succeeds over each part. */
  lemma ParseFragmentsSplit(f1: seq<string>, f2: seq<string>)
    requires ParseFragments(f1 + f2).Success?
    ensures ParseFragments(f1).Success? && ParseFragments(f2).Success?
    ensures ParseFragments(f1 + f2).value == ParseFragments(f1).value + ParseFragments(f2).value
  {
    ParseFragmentsAppend(f1, f2);
  }

  /** A fragment that yields a record puts it before the entries of the
      fragments after it. */
  lemma ParseFragmentsCons(f: string, after: seq<string>)
    requires ParseEntry(f).Success? && ParseEntry(f).value.Some?
    requires ParseFragments([f] + after).Success?
    ensures ParseFragments(after).Success?
    ensures ParseFragments([f] + after).value == [ParseEntry(f).value.value] + ParseFragments(after).value
  {
    ParseFragmentsSplit([f], after);
    ParseFragmentsSingle(f);
  }

  /** Every fragment that yields a record contributes it, in fragment order:
      the record of fragment i follows the entries of the fragments before it
      and precedes those of the fragments after it. */
  lemma ParseFragmentsKeeps(fragments: seq<string>, i: int)
    requires 0 <= i < |fragments| && ParseEntry(fragments[i]).Success? && ParseEntry(fragments[i]).value.Some?
    requires ParseFragments(fragments).Success?
    ensures ParseFragments(fragments[..i]).Success? && ParseFragments(fragments[i + 1..]).Success?
    ensures ParseFragments(fragments).value ==
      ParseFragments(fragments[..i]).value + [ParseEntry(fragments[i]).value.value] + ParseFragments(fragments[i + 1..]).value
  {
    CombineAt(EntriesOf(fragments), i);
    EntriesOfSlices(fragments, i);
  }

  /** `parseBibtex` on text that has already been trimmed: the first fragment is
      discarded (`slice(1)`). */
  function ParseTrimmed(s: string): (r: Result<seq<Record>, ParseError>)
    ensures r.Success? ==> |r.value| < |SplitEntries(s)| && forall x :: x in r.value ==> WellFormed(x)
  {
    ParseFragments(SplitEntries(s)[1..])
  }

  /** The first entry is never returned: whatever precedes the first delimiter
      has no effect on the result. */
  lemma LeadingEntryDropped(a: string, w: string, b: string)
    requires DelimiterFree(a) && NoOpenTail(a) && AllSpace(w)
    ensures ParseTrimmed(a + "\n" + w + "@" + b) == ParseFragments(SplitEntries(b))
  {
    SplitEntriesAfterLead(a, w, b);
    assert ([a] + SplitEntries(b))[1..] == SplitEntries(b);
  }

  /** Text holding a single entry yields no record at all. */
  lemma SingleEntryYieldsNothing(s: string)
    requires DelimiterFree(s)
    ensures ParseTrimmed(s) == Success([])
  {
    SplitEntriesSingle(s);
  }

  /** `parseBibtex(bibtex)` */
  function Parse(text: string): (r: Result<seq<Record>, ParseError>)
    ensures r.Success? ==> |r.value| < |SplitEntries(Trim(text))| && forall x :: x in r.value ==> WellFormed(x)
  {
    ParseTrimmed(Trim(text))
  }

  /** Every entry after the first whose fragment yields a record is returned, in
      the order of the text, when the parse of trimmed text succeeds. */
  lemma ParseTrimmedKeeps(s: string, i: int)
    requires 1 <= i < |SplitEntries(s)|
    requires ParseEntry(SplitEntries(s)[i]).Success? && ParseEntry(SplitEntries(s)[i]).value.Some?
    requires ParseTrimmed(s).Success?
    ensures ParseFragments(SplitEntries(s)[1..i]).Success? && ParseFragments(SplitEntries(s)[i + 1..]).Success?
    ensures ParseTrimmed(s).value ==
      ParseFragments(SplitEntries(s)[1..i]).value
      + [ParseEntry(SplitEntries(s)[i]).value.value]
      + ParseFragments(SplitEntries(s)[i + 1..]).value
  {
    var frags := SplitEntries(s);
    SliceOfTail(frags, i);
    ParseFragmentsKeeps(frags[1..], i - 1);
  }

  /** Every entry after the first whose fragment yields a record is returned, in
      the order of the text, when the parse succeeds. */
  lemma ParseKeeps(text: string, i: int)
    requires 1 <= i < |SplitEntries(Trim(text))|
    requires ParseEntry(SplitEntries(Trim(text))[i]).Success? && ParseEntry(SplitEntries(Trim(text))[i]).value.Some?
    requires Parse(text).Success?
    ensures ParseFragments(SplitEntries(Trim(text))[1..i]).Success?
    ensures ParseFragments(SplitEntries(Trim(text))[i + 1..]).Success?
    ensures Parse(text).value ==
      ParseFragments(SplitEntries(Trim(text))[1..i]).value
      + [ParseEntry(SplitEntries(Trim(text))[i]).value.value]
      + ParseFragments(SplitEntries(Trim(text))[i + 1..]).value
  {
    ParseTrimmedKeeps(Trim(text), i);
  }
}
