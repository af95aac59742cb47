/**
  The handful of JavaScript `String.prototype` operations the question-answering
  handler relies on, each for a literal (non-regular-expression) pattern:
  `indexOf`, `split`, `replace` of the first occurrence, a global `replace` of a
  literal written as a global regular expression, and `trim`.

  JavaScript strings are sequences of UTF-16 code units; here a string is a
  Dafny `string`, a sequence of Unicode scalar values. Every pattern used by the
  handler is ASCII and every whitespace character `trim` strips is a single code
  unit, so the two views agree on everything modelled.
 */
module JsStrings {

  datatype Option<+T> = None | Some(value: T)

  /** The code points `trim` strips: ECMAScript's WhiteSpace (TAB, VT, FF, ZWNBSP
      and the Unicode space separators) and LineTerminator (LF, CR, LS, PS).
      Each is a single UTF-16 code unit, and none is the emphasis marker. */
  function IsWs(c: char): (b: bool)
    ensures b ==> c as int < 0x1_0000
    ensures b ==> c != '*'
  {
    var n := c as int;
    || n == 0x09 || n == 0x0A || n == 0x0B || n == 0x0C || n == 0x0D
    || n == 0x20 || n == 0xA0 || n == 0x1680 || (0x2000 <= n <= 0x200A)
    || n == 0x2028 || n == 0x2029 || n == 0x202F || n == 0x205F
    || n == 0x3000 || n == 0xFEFF
  }

  predicate AllWs(s: string) {
    forall i :: 0 <= i < |s| ==> IsWs(s[i])
  }

  /** Neither end of `s` is whitespace: the shape of every result of `trim`. */
  predicate Trimmed(s: string) {
    s == [] || (!IsWs(s[0]) && !IsWs(s[|s| - 1]))
  }

  /** `pat` occurs in `s` starting at index `i`. */
  predicate OccursAt(s: string, pat: string, i: int) {
    0 <= i && i + |pat| <= |s| && s[i..i + |pat|] == pat
  }

  lemma OccursInPrefix(s: string, n: nat, pat: string, j: int)
    requires n <= |s| && OccursAt(s[..n], pat, j)
    ensures OccursAt(s, pat, j) && j + |pat| <= n
  {
    assert s[..n][j..j + |pat|] == s[j..j + |pat|];
  }

  lemma OccursInSuffix(s: string, n: nat, pat: string, j: int)
    requires n <= |s| && OccursAt(s[n..], pat, j)
    ensures OccursAt(s, pat, n + j)
  {
    assert s[n..][j..j + |pat|] == s[n + j..n + j + |pat|];
  }

  /** An occurrence starts with the pattern's first character. */
  lemma OccursAtFirstChar(s: string, pat: string, j: int)
    requires |pat| > 0 && OccursAt(s, pat, j)
    ensures s[j] == pat[0]
  {
    assert s[j] == s[j..j + |pat|][0];
  }

  /** A text without the pattern's first character holds no occurrence. */
  lemma NoOccurrence(s: string, pat: string)
    requires |pat| > 0 && pat[0] !in s
    ensures forall j :: !OccursAt(s, pat, j)
  {
    forall j | OccursAt(s, pat, j) ensures false {
      OccursAtFirstChar(s, pat, j);
    }
  }

  /** When the pattern's first character appears nowhere else, the one
      occurrence written between `pre` and `post` is the only one. */
  lemma SoleOccurrence(pre: string, pat: string, post: string)
    requires |pat| > 0
    requires pat[0] !in pre && pat[0] !in pat[1..] && pat[0] !in post
    ensures forall j :: OccursAt(pre + pat + post, pat, j) ==> j == |pre|
  {
    var s := pre + pat + post;
    forall j | OccursAt(s, pat, j) ensures j == |pre| {
      OccursAtFirstChar(s, pat, j);
    }
  }

  // ---------------------------------------------------------------------------
  // indexOf
  // ---------------------------------------------------------------------------

  /** `s.indexOf(pat, k)`: the first occurrence of `pat` at or after `k`. */
  function IndexFrom(s: string, pat: string, k: nat): (r: Option<nat>)
    requires k <= |s|
    ensures r.Some? ==> k <= r.value && OccursAt(s, pat, r.value)
    ensures r.Some? ==> forall j :: k <= j < r.value ==> !OccursAt(s, pat, j)
    ensures r.None? ==> forall j :: k <= j ==> !OccursAt(s, pat, j)
    decreases |s| - k
  {
    if k + |pat| > |s| then None
    else if s[k..k + |pat|] == pat then Some(k)
    else
      assert pat != [];
      IndexFrom(s, pat, k + 1)
  }

  /** `s.indexOf(pat)`: the index of the first occurrence of `pat`, if any. */
  function IndexOf(s: string, pat: string): (r: Option<nat>)
    ensures r.Some? ==> OccursAt(s, pat, r.value)
    ensures r.Some? ==> forall j :: 0 <= j < r.value ==> !OccursAt(s, pat, j)
    ensures r.None? ==> forall j :: !OccursAt(s, pat, j)
  {
    IndexFrom(s, pat, 0)
  }

  /** The text of `s` before the first occurrence of `sep`; all of `s` when
      `sep` does not occur. */
  function Before(s: string, sep: string): (r: string)
    ensures |r| <= |s| && r == s[..|r|]
    ensures forall j :: 0 <= j < |r| ==> !OccursAt(s, sep, j)
    ensures r == s || OccursAt(s, sep, |r|)
  {
    match IndexOf(s, sep)
    case None => s
    case Some(i) => s[..i]
  }

  // ---------------------------------------------------------------------------
  // split
  // ---------------------------------------------------------------------------

  /** `s.split(sep)` for a non-empty literal separator: the pieces between
      successive non-overlapping occurrences of `sep`, scanning left to right. */
  function Split(s: string, sep: string): (parts: seq<string>)
    requires |sep| > 0
    ensures |parts| >= 1
    ensures |parts| > 1 <==> IndexOf(s, sep).Some?
    decreases |s|
  {
    match IndexOf(s, sep)
    case None => [s]
    case Some(i) => [s[..i]] + Split(s[i + |sep|..], sep)
  }

  /** `parts.join(sep)`. */
  function Join(parts: seq<string>, sep: string): string {
    if |parts| == 0 then ""
    else if |parts| == 1 then parts[0]
    else parts[0] + sep + Join(parts[1..], sep)
  }

  /** The first piece is the text before the first separator. */
  lemma SplitHead(s: string, sep: string)
    requires |sep| > 0
    ensures Split(s, sep)[0] == Before(s, sep)
  {
  }

  /** Joining the pieces of a split with the separator gives back the text. */
  lemma {:induction false} SplitJoin(s: string, sep: string)
    requires |sep| > 0
    ensures Join(Split(s, sep), sep) == s
    decreases |s|
  {
    match IndexOf(s, sep)
    case None =>
    case Some(i) =>
      var tail := s[i + |sep|..];
      SplitJoin(tail, sep);
      SplitStep(s, sep, i);
      JoinCons(s[..i], Split(tail, sep), sep);
      Reassemble(s, sep, i);
  }

  lemma SplitStep(s: string, sep: string, i: nat)
    requires |sep| > 0 && IndexOf(s, sep) == Some(i)
    ensures i + |sep| <= |s|
    ensures Split(s, sep) == [s[..i]] + Split(s[i + |sep|..], sep)
  {
  }

  lemma JoinCons(p: string, rest: seq<string>, sep: string)
    requires |rest| >= 1
    ensures Join([p] + rest, sep) == p + sep + Join(rest, sep)
  {
    assert ([p] + rest)[1..] == rest;
  }

  lemma Reassemble(s: string, sep: string, i: nat)
    requires OccursAt(s, sep, i)
    ensures s == s[..i] + sep + s[i + |sep|..]
  {
    assert s == s[..i] + s[i..i + |sep|] + s[i + |sep|..];
  }

  /** `pat` occurs nowhere in `s`. */
  ghost predicate Free(s: string, pat: string) {
    forall j :: !OccursAt(s, pat, j)
  }

  /** The text before the first separator holds no separator. */
  lemma BeforeFree(s: string, sep: string)
    requires |sep| > 0
    ensures Free(Before(s, sep), sep)
  {
    var b := Before(s, sep);
    forall j | OccursAt(b, sep, j) ensures false {
      OccursInPrefix(s, |b|, sep, j);
    }
  }

  /** No piece of a split contains the separator. */
  lemma {:induction false} SplitPiecesFree(s: string, sep: string)
    requires |sep| > 0
    ensures var parts := Split(s, sep);
      forall k :: 0 <= k < |parts| ==> Free(parts[k], sep)
    decreases |s|
  {
    var parts := Split(s, sep);
    BeforeFree(s, sep);
    match IndexOf(s, sep)
    case None =>
    case Some(i) =>
      var tail := s[i + |sep|..];
      SplitPiecesFree(tail, sep);
      assert parts == [parts[0]] + Split(tail, sep);
  }

  /** The second piece of a split, when there is one, is the text after the
      first separator up to the next one (or to the end). */
  lemma SplitSecond(s: string, sep: string)
    requires |sep| > 0 && IndexOf(s, sep).Some?
    ensures var i := IndexOf(s, sep).value;
      Split(s, sep)[1] == Before(s[i + |sep|..], sep)
  {
  }

  // ---------------------------------------------------------------------------
  // replace
  // ---------------------------------------------------------------------------

  /** `s.replace(pat, rep)` with a string pattern: only the FIRST occurrence of
      `pat`, wherever it is, is replaced. (`rep` is taken literally; the handler
      only ever passes "", which has no `$` substitutions.) */
  function ReplaceFirst(s: string, pat: string, rep: string): (r: string)
    requires |pat| > 0
    ensures var b := Before(s, pat);
      if b == s then r == s
      else s == b + pat + s[|b| + |pat|..] && r == b + rep + s[|b| + |pat|..]
  {
    match IndexOf(s, pat)
    case None => s
    case Some(i) => s[..i] + rep + s[i + |pat|..]
  }

  /** A text that starts with the pattern loses exactly that prefix. */
  lemma ReplaceFirstAtStart(pat: string, rest: string)
    requires |pat| > 0
    ensures ReplaceFirst(pat + rest, pat, "") == rest
  {
    var s := pat + rest;
    assert s[..|pat|] == pat;
    assert OccursAt(s, pat, 0);
    assert s[|pat|..] == rest;
  }

  /** Removing the first occurrence shortens the text by exactly the pattern
      when it occurs, and leaves the text alone when it does not. */
  lemma ReplaceFirstLength(s: string, pat: string)
    requires |pat| > 0
    ensures |ReplaceFirst(s, pat, "")| == if IndexOf(s, pat).Some? then |s| - |pat| else |s|
  {
  }

  /** `s.replace(/pat/g, "")` for a regular expression that is a literal:
      every non-overlapping occurrence, found scanning left to right, is
      deleted. */
  function DeleteAll(s: string, pat: string): (r: string)
    requires |pat| > 0
    ensures |r| <= |s|
    decreases |s|
  {
    if |s| < |pat| then s
    else if s[..|pat|] == pat then DeleteAll(s[|pat|..], pat)
    else [s[0]] + DeleteAll(s[1..], pat)
  }

  /** Reference definition of "every `c` removed": `s` filtered by `x != c`. */
  function Without(s: string, c: char): (r: string)
    ensures c !in r
    ensures |r| <= |s|
  {
    if s == [] then []
    else (if s[0] == c then [] else [s[0]]) + Without(s[1..], c)
  }

  /** Filtering keeps every other character as often as it occurs. */
  lemma {:induction false} WithoutKeepsOthers(s: string, c: char)
    ensures forall x :: x != c ==> multiset(Without(s, c))[x] == multiset(s)[x]
  {
    if s != [] {
      WithoutKeepsOthers(s[1..], c);
      assert s == [s[0]] + s[1..];
    }
  }

  lemma {:induction false} WithoutAppend(a: string, b: string, c: char)
    ensures Without(a + b, c) == Without(a, c) + Without(b, c)
  {
    if a != [] {
      assert (a + b)[0] == a[0];
      assert (a + b)[1..] == a[1..] + b;
      WithoutAppend(a[1..], b, c);
    } else {
      assert a + b == b;
    }
  }

  /** One more `c` anywhere makes no difference to the filter. */
  lemma WithoutIgnoresChar(x: string, y: string, c: char)
    ensures Without(x + [c] + y, c) == Without(x + y, c)
  {
    assert Without([c], c) == [] by {
      assert [c][1..] == [];
    }
    calc {
      Without(x + [c] + y, c);
    == { WithoutAppend(x + [c], y, c); }
      Without(x + [c], c) + Without(y, c);
    == { WithoutAppend(x, [c], c); }
      Without(x, c) + [] + Without(y, c);
    == { assert Without(x, c) + [] == Without(x, c); }
      Without(x, c) + Without(y, c);
    == { WithoutAppend(x, y, c); }
      Without(x + y, c);
    }
  }

  /** A text without `c` is its own filter. */
  lemma {:induction false} WithoutAbsent(s: string, c: char)
    requires c !in s
    ensures Without(s, c) == s
  {
    if s != [] {
      WithoutAbsent(s[1..], c);
    }
  }

  /** Deleting every occurrence of a one-character pattern is the filter
      `Without`. */
  lemma {:induction false} DeleteAllChar(s: string, c: char)
    ensures DeleteAll(s, [c]) == Without(s, c)
    decreases |s|
  {
    if s != [] {
      DeleteAllChar(s[1..], c);
    }
  }

  /** Deleting every `cc` and then every `c` removes exactly the `c`s. */
  lemma {:induction false} DeletePairThenChar(s: string, c: char)
    ensures DeleteAll(DeleteAll(s, [c, c]), [c]) == Without(s, c)
    decreases |s|
  {
    DeleteAllChar(DeleteAll(s, [c, c]), c);
    if |s| < 2 {
    } else if s[..2] == [c, c] {
      DeletePairThenChar(s[2..], c);
      DeleteAllChar(DeleteAll(s[2..], [c, c]), c);
      assert s == [c, c] + s[2..];
      WithoutAppend([c, c], s[2..], c);
    } else {
      DeletePairThenChar(s[1..], c);
      DeleteAllChar(DeleteAll(s[1..], [c, c]), c);
      WithoutAppend([s[0]], DeleteAll(s[1..], [c, c]), c);
      WithoutAppend([s[0]], s[1..], c);
      assert s == [s[0]] + s[1..];
    }
  }

  // ---------------------------------------------------------------------------
  // trim
  // ---------------------------------------------------------------------------

  /** The length of the run of whitespace that `s` starts with. */
  function LeadingWs(s: string): (n: nat)
    ensures n <= |s|
  {
    if s == [] || !IsWs(s[0]) then 0 else 1 + LeadingWs(s[1..])
  }

  /** The counted run is all whitespace, and the character after it is not. */
  lemma {:induction false} LeadingWsRun(s: string)
    ensures forall i :: 0 <= i < LeadingWs(s) ==> IsWs(s[i])
    ensures LeadingWs(s) == |s| || !IsWs(s[LeadingWs(s)])
  {
    if s != [] && IsWs(s[0]) {
      LeadingWsRun(s[1..]);
    }
  }

  /** The length of the run of whitespace that `s` ends with. */
  function TrailingWs(s: string): (n: nat)
    ensures n <= |s|
  {
    if s == [] || !IsWs(s[|s| - 1]) then 0 else 1 + TrailingWs(s[..|s| - 1])
  }

  /** The counted run is all whitespace, and the character before it is not. */
  lemma {:induction false} TrailingWsRun(s: string)
    ensures forall i :: |s| - TrailingWs(s) <= i < |s| ==> IsWs(s[i])
    ensures TrailingWs(s) == |s| || !IsWs(s[|s| - 1 - TrailingWs(s)])
  {
    if s != [] && IsWs(s[|s| - 1]) {
      TrailingWsRun(s[..|s| - 1]);
    }
  }

  /** Drops the leading whitespace of `s`. */
  function TrimStart(s: string): string {
    s[LeadingWs(s)..]
  }

  /** Drops the trailing whitespace of `s`. */
  function TrimEnd(s: string): string {
    s[..|s| - TrailingWs(s)]
  }

  /** `s.trim()`: the text with whitespace dropped at both ends. */
  function Trim(s: string): (r: string)
    ensures |r| <= |s|
    ensures Trimmed(r)
  {
    var t := TrimStart(s);
    var r := TrimEnd(t);
    TrimmedEdges(s, t, r);
    r
  }

  /** `trim` keeps the slice of `s` that starts after its leading
      whitespace. */
  lemma TrimSlice(s: string)
    ensures var r := Trim(s); var i := LeadingWs(s);
      i + |r| <= |s| && r == s[i..i + |r|]
  {
    var i := LeadingWs(s);
    var t := TrimStart(s);
    var r := Trim(s);
    assert t == s[i..];
    assert r == t[..|t| - TrailingWs(t)];
    forall k | 0 <= k < |r| ensures r[k] == s[i + k] {
      assert r[k] == t[k];
    }
  }

  /** What `trim` drops from either side of that slice is whitespace only. */
  lemma TrimDropsOnlyWs(s: string)
    ensures var r := Trim(s); var i := LeadingWs(s);
      i + |r| <= |s| && AllWs(s[..i]) && AllWs(s[i + |r|..])
  {
    var i := LeadingWs(s);
    var t := TrimStart(s);
    var n := TrailingWs(t);
    var r := Trim(s);
    LeadingWsRun(s);
    TrailingWsRun(t);
    assert t == s[i..];
    assert |r| == |t| - n;
    forall k | 0 <= k < i ensures IsWs(s[..i][k]) {
      assert s[..i][k] == s[k];
    }
    var after := s[i + |r|..];
    forall k | 0 <= k < |after| ensures IsWs(after[k]) {
      assert after[k] == t[|t| - n + k];
    }
  }

  /** The first and last characters `trim` keeps are not whitespace. */
  lemma TrimmedEdges(s: string, t: string, r: string)
    requires t == TrimStart(s) && r == TrimEnd(t)
    ensures Trimmed(r)
  {
    var i := LeadingWs(s);
    var n := TrailingWs(t);
    LeadingWsRun(s);
    TrailingWsRun(t);
    if r != [] {
      assert r[0] == t[0] == s[i];
      assert r[|r| - 1] == t[|t| - 1 - n];
    }
  }

  lemma {:induction false} TrimStartWsPrefix(a: string, x: string)
    requires AllWs(a)
    ensures TrimStart(a + x) == TrimStart(x)
  {
    if a != [] {
      assert (a + x)[0] == a[0] && IsWs(a[0]);
      assert (a + x)[1..] == a[1..] + x;
      TrimStartWsPrefix(a[1..], x);
    } else {
      assert a + x == x;
    }
  }

  lemma {:induction false} TrimEndWsSuffix(x: string, b: string)
    requires AllWs(b)
    ensures TrimEnd(x + b) == TrimEnd(x)
    decreases |b|
  {
    if b != [] {
      var b' := b[..|b| - 1];
      assert (x + b)[|x + b| - 1] == b[|b| - 1] && IsWs(b[|b| - 1]);
      assert (x + b)[..|x + b| - 1] == x + b';
      TrimEndWsSuffix(x, b');
    } else {
      assert x + b == x;
    }
  }

  /** The characterisation of `trim`: whatever whitespace surrounds a text that
      is itself trimmed, `trim` returns exactly that text. */
  lemma TrimUnique(a: string, m: string, b: string)
    requires AllWs(a) && AllWs(b) && Trimmed(m)
    ensures Trim(a + m + b) == m
  {
    assert a + m + b == a + (m + b);
    TrimStartWsPrefix(a, m + b);
    if m == [] {
      assert m + b == b;
    } else {
      assert TrimStart(m + b) == m + b;
    }
    TrimEndWsSuffix(m, b);
  }

  /** Whitespace before a trimmed text is all that `trim` removes. */
  lemma TrimLeadingWs(a: string, m: string)
    requires AllWs(a) && Trimmed(m)
    ensures Trim(a + m) == m
  {
    assert a + m + [] == a + m;
    TrimUnique(a, m, []);
  }

  /** `trim` is idempotent. */
  lemma TrimIdempotent(s: string)
    ensures Trim(Trim(s)) == Trim(s)
  {
    var r := Trim(s);
    assert [] + r + [] == r;
    TrimUnique([], r, []);
  }
}
