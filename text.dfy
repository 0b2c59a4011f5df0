/**
 * String primitives with the semantics of the JavaScript built-ins the site's
 * script relies on: `trim`, `includes`, `split` with a literal separator, and
 * the `replace(/[{}"]/g, '')` clean-up.
 */
module Text {
  import opened Wrappers

  /** A character that `trim()` removes and `\s` matches: the ECMAScript
      WhiteSpace and LineTerminator characters. */
  predicate IsSpace(c: char) {
    || c == '\t' || c == '\n' || c == '\U{000B}' || c == '\U{000C}' || c == '\r' || c == ' '
    || c == '\U{00A0}' || c == '\U{1680}' || ('\U{2000}' <= c <= '\U{200A}')
    || c == '\U{2028}' || c == '\U{2029}' || c == '\U{202F}' || c == '\U{205F}'
    || c == '\U{3000}' || c == '\U{FEFF}'
  }

  /** A character that `\w` matches in a regular expression without the `u` flag. */
  predicate IsWordChar(c: char) {
    || ('a' <= c <= 'z') || ('A' <= c <= 'Z') || ('0' <= c <= '9') || c == '_'
  }

  /** The first index at or after `i` that does not hold white space. */
  function SkipSpaces(s: string, i: nat): (r: nat)
    requires i <= |s|
    ensures i <= r <= |s|
    ensures forall k :: i <= k < r ==> IsSpace(s[k])
    ensures r == |s| || !IsSpace(s[r])
    decreases |s| - i
  {
    if i < |s| && IsSpace(s[i]) then SkipSpaces(s, i + 1) else i
  }

  /** The smallest index `r`, no lower than `lo`, such that `s[r..j]` is all white space. */
  function SkipSpacesBack(s: string, lo: nat, j: nat): (r: nat)
    requires lo <= j <= |s|
    ensures lo <= r <= j
    ensures forall k :: r <= k < j ==> IsSpace(s[k])
    ensures r == lo || !IsSpace(s[r - 1])
    decreases j
  {
    if lo < j && IsSpace(s[j - 1]) then SkipSpacesBack(s, lo, j - 1) else j
  }

  /** `r` is the slice of `s` that starts at `a`, with only white space around it. */
  ghost predicate TrimmedAt(s: string, r: string, a: int) {
    && 0 <= a && a + |r| <= |s| && r == s[a..a + |r|]
    && (forall i :: 0 <= i < a ==> IsSpace(s[i]))
    && (forall i :: a + |r| <= i < |s| ==> IsSpace(s[i]))
  }

  /** `s.trim()`: the slice of `s` left once white space is removed from both ends. */
  function Trim(s: string): (r: string)
    ensures r == [] || (!IsSpace(r[0]) && !IsSpace(r[|r| - 1]))
    ensures exists a :: TrimmedAt(s, r, a)
  {
    var a := SkipSpaces(s, 0);
    var b := SkipSpacesBack(s, a, |s|);
    assert TrimmedAt(s, s[a..b], a);
    s[a..b]
  }

  /** Text with no white space at either end is its own trim. */
  lemma TrimUnchanged(s: string)
    requires s == [] || (!IsSpace(s[0]) && !IsSpace(s[|s| - 1]))
    ensures Trim(s) == s
  {
    var a := SkipSpaces(s, 0);
    assert a == 0;
    var b := SkipSpacesBack(s, a, |s|);
    assert b == |s|;
  }

  lemma TrimKeepsChars(s: string, c: char)
    requires c in Trim(s)
    ensures c in s
  {
    var r := Trim(s);
    var a :| TrimmedAt(s, r, a);
    var k :| 0 <= k < |r| && r[k] == c;
    assert s[a + k] == c;
  }

  /** `sub` occurs in `s` starting at index `i`. */
  predicate OccursAt(s: string, sub: string, i: int) {
    0 <= i && i + |sub| <= |s| && s[i..i + |sub|] == sub
  }

  lemma OccursInPrefix(s: string, sub: string, n: int, j: int)
    requires 0 <= n <= |s| && OccursAt(s[..n], sub, j)
    ensures OccursAt(s, sub, j) && j + |sub| <= n
  {
    assert s[..n][j..j + |sub|] == s[j..j + |sub|];
  }

  lemma OccursInSuffix(s: string, sub: string, n: int, j: int)
    requires 0 <= n <= |s| && 0 <= j
    ensures OccursAt(s[n..], sub, j) <==> OccursAt(s, sub, n + j)
  {
    if j + |sub| <= |s| - n {
      assert s[n..][j..j + |sub|] == s[n + j..n + j + |sub|];
    }
  }

  /** `s.indexOf(sub)` for a non-empty `sub`: the first index at which it occurs. */
  function IndexOf(s: string, sub: string): (r: Option<nat>)
    requires |sub| > 0
    ensures r.Some? ==> OccursAt(s, sub, r.value) && forall j :: 0 <= j < r.value ==> !OccursAt(s, sub, j)
    ensures r.None? ==> forall j :: !OccursAt(s, sub, j)
    decreases |s|
  {
    if |s| < |sub| then None
    else if s[..|sub|] == sub then Some(0)
    else
      var rest := IndexOf(s[1..], sub);
      forall j | 1 <= j
        ensures OccursAt(s, sub, j) <==> OccursAt(s[1..], sub, j - 1)
      {
        OccursInSuffix(s, sub, 1, j - 1);
      }
      match rest
      case None => None
      case Some(i) => Some(i + 1)
  }

  /** `s.includes(sub)` */
  function Includes(s: string, sub: string): (b: bool)
    ensures b <==> exists j :: OccursAt(s, sub, j)
  {
    if |sub| == 0 then
      assert OccursAt(s, sub, 0);
      true
    else
      IndexOf(s, sub).Some?
  }

  lemma IncludesTransitive(s: string, mid: string, sub: string)
    requires Includes(s, mid) && Includes(mid, sub)
    ensures Includes(s, sub)
  {
    var i :| OccursAt(s, mid, i);
    var j :| OccursAt(mid, sub, j);
    forall k | 0 <= k < |sub|
      ensures s[i + j + k] == sub[k]
    {
      assert mid[j + k] == sub[k];
      assert s[i..i + |mid|][j + k] == s[i + j + k];
    }
    assert s[i + j..i + j + |sub|] == sub;
    assert OccursAt(s, sub, i + j);
  }

  /** `s.split(sep)` for a non-empty literal separator: the pieces between the
      occurrences of `sep`, found left to right without overlap. */
  function Split(s: string, sep: string): (r: seq<string>)
    requires |sep| > 0
    ensures |r| > 0
    decreases |s|
  {
    match IndexOf(s, sep)
    case None => [s]
    case Some(i) => [s[..i]] + Split(s[i + |sep|..], sep)
  }

  /** No piece holds the separator. */
  lemma {:induction false} SplitPiecesExcludeSeparator(s: string, sep: string)
    requires |sep| > 0
    ensures forall i :: 0 <= i < |Split(s, sep)| ==> !Includes(Split(s, sep)[i], sep)
    decreases |s|
  {
    match IndexOf(s, sep)
    case None =>
    case Some(i) =>
      SplitPiecesExcludeSeparator(s[i + |sep|..], sep);
      forall j | OccursAt(s[..i], sep, j)
        ensures false
      {
        OccursInPrefix(s, sep, i, j);
      }
      var rest := Split(s[i + |sep|..], sep);
      assert Split(s, sep) == [s[..i]] + rest;
      assert forall k :: 1 <= k < |Split(s, sep)| ==> Split(s, sep)[k] == rest[k - 1];
  }

  /** Text in which the separator does not occur is a single piece. */
  lemma SplitWithout(s: string, sep: string)
    requires |sep| > 0 && !Includes(s, sep)
    ensures Split(s, sep) == [s]
  {
  }

  /** The separator cuts the text at its leftmost occurrence, even when it
      overlaps itself: `x` followed by all but the last character of `sep`
      must not hold `sep`, so no occurrence begins inside `x`. */
  lemma SplitAtFirstSep(x: string, sep: string, y: string)
    requires |sep| > 0 && !Includes(x + sep[..|sep| - 1], sep)
    ensures Split(x + sep + y, sep) == [x] + Split(y, sep)
  {
    var s := x + sep + y;
    var n := |x| + |sep| - 1;
    assert s[..n] == x + sep[..|sep| - 1];
    assert s[|x|..|x| + |sep|] == sep;
    assert OccursAt(s, sep, |x|);
    forall j | 0 <= j < |x|
      ensures !OccursAt(s, sep, j)
    {
      assert s[..n][j..j + |sep|] == s[j..j + |sep|];
      assert !OccursAt(s[..n], sep, j);
    }
    assert IndexOf(s, sep) == Some(|x|);
    assert s[..|x|] == x;
    assert s[|x| + |sep|..] == y;
  }

  /** Text without the one-character separator is a single piece. */
  lemma SplitNoSeparator(s: string, c: char)
    requires c !in s
    ensures Split(s, [c]) == [s]
  {
    forall j | 0 <= j < |s|
      ensures !OccursAt(s, [c], j)
    {
      assert s[j..j + 1][0] == s[j];
    }
  }

  /** A one-character separator cuts the text at its first occurrence. */
  lemma SplitAtFirst(x: string, c: char, y: string)
    requires c !in x
    ensures Split(x + [c] + y, [c]) == [x] + Split(y, [c])
  {
    var s := x + [c] + y;
    assert s[|x|..|x| + 1] == [c];
    assert OccursAt(s, [c], |x|);
    forall j | 0 <= j < |x|
      ensures !OccursAt(s, [c], j)
    {
      assert s[j..j + 1][0] == x[j];
    }
    assert IndexOf(s, [c]) == Some(|x|);
    assert s[..|x|] == x;
    assert s[|x| + 1..] == y;
  }

  /** The last piece is whatever follows the last separator. */
  lemma {:induction false} SplitEndsWith(x: string, c: char, f: string)
    requires c !in f
    ensures var r := Split(x + [c] + f, [c]); r[|r| - 1] == f
    decreases |x|
  {
    var s := x + [c] + f;
    assert s[|x|..|x| + 1] == [c];
    assert OccursAt(s, [c], |x|);
    match IndexOf(s, [c])
    case Some(i) =>
      if i == |x| {
        assert s[i + 1..] == f;
        SplitNoSeparator(f, c);
      } else {
        assert s[i + 1..] == x[i + 1..] + [c] + f;
        SplitEndsWith(x[i + 1..], c, f);
      }
  }

  /** No piece of a split on a one-character separator holds that character. */
  lemma SplitPiecesFree(s: string, c: char)
    ensures forall i :: 0 <= i < |Split(s, [c])| ==> c !in Split(s, [c])[i]
  {
    var r := Split(s, [c]);
    SplitPiecesExcludeSeparator(s, [c]);
    forall i, k | 0 <= i < |r| && 0 <= k < |r[i]|
      ensures r[i][k] != c
    {
      assert r[i][k..k + 1] == [r[i][k]];
      assert !OccursAt(r[i], [c], k);
    }
  }

  /** Every character of a piece comes from the text. */
  lemma SplitKeepsChars(s: string, c: char, i: int, d: char)
    requires 0 <= i < |Split(s, [c])| && d in Split(s, [c])[i]
    ensures d in s
  {
    SplitJoin(s, [c]);
    JoinKeepsChars(Split(s, [c]), [c], i, d);
  }

  lemma {:induction false} JoinKeepsChars(pieces: seq<string>, sep: string, i: int, d: char)
    requires 0 <= i < |pieces| && d in pieces[i]
    ensures d in Join(pieces, sep)
    decreases |pieces|
  {
    if |pieces| > 1 && i > 0 {
      JoinKeepsChars(pieces[1..], sep, i - 1, d);
    }
  }

  /** `pieces.join(sep)` */
  function Join(pieces: seq<string>, sep: string): string
    requires |pieces| > 0
  {
    if |pieces| == 1 then pieces[0] else pieces[0] + sep + Join(pieces[1..], sep)
  }

  /** Several pieces joined end with a separator and the last piece. */
  lemma {:induction false} JoinLast(pieces: seq<string>, sep: string) returns (init: string)
    requires |pieces| > 1
    ensures Join(pieces, sep) == init + sep + pieces[|pieces| - 1]
    decreases |pieces|
  {
    if |pieces| == 2 {
      init := pieces[0];
    } else {
      var rest := JoinLast(pieces[1..], sep);
      init := pieces[0] + sep + rest;
    }
  }

  /** Splitting and joining again gives back the text. */
  lemma {:induction false} SplitJoin(s: string, sep: string)
    requires |sep| > 0
    ensures Join(Split(s, sep), sep) == s
    decreases |s|
  {
    match IndexOf(s, sep)
    case None =>
    case Some(i) =>
      SplitJoin(s[i + |sep|..], sep);
      assert s[i..i + |sep|] == sep;
      assert s == s[..i] + sep + s[i + |sep|..];
  }

  /** A character that the clean-up `replace(/[{}"]/g, '')` removes. */
  predicate IsBraceOrQuote(c: char) {
    c == '{' || c == '}' || c == '"'
  }

  /** `s.replace(/[{}"]/g, '')`: `s` without its braces and double quotes. */
  function Strip(s: string): (r: string)
    ensures |r| <= |s|
    ensures forall c :: c in r ==> c in s && !IsBraceOrQuote(c)
    ensures forall i :: 0 <= i < |s| && !IsBraceOrQuote(s[i]) ==> s[i] in r
  {
    if s == [] then []
    else
      var rest := Strip(s[1..]);
      assert forall i :: 1 <= i < |s| ==> s[i] == s[1..][i - 1];
      (if IsBraceOrQuote(s[0]) then [] else [s[0]]) + rest
  }

  /** The clean-up works character by character. */
  lemma {:induction false} StripAppend(a: string, b: string)
    ensures Strip(a + b) == Strip(a) + Strip(b)
    decreases |a|
  {
    if a != [] {
      var head := if IsBraceOrQuote(a[0]) then [] else [a[0]];
      assert (a + b)[0] == a[0];
      assert (a + b)[1..] == a[1..] + b;
      assert Strip(a + b) == head + Strip(a[1..] + b);
      StripAppend(a[1..], b);
      assert Strip(a) == head + Strip(a[1..]);
    } else {
      assert a + b == b;
    }
  }
}
