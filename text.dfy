/** The parts of Python's `str` and `re` that the scraper applies to row
  * texts: `\s` in a pattern and the argument-less `str.strip()` both mean
  * the characters of `Whitespace`, `[A-Z]` and `[a-z]` are the ASCII letter
  * ranges, and `lower()` folds only `A`-`Z`. */
module Text {

  /** The characters Python's `str.isspace()` accepts, which are the ones
    * `\s` matches in a `str` pattern and `str.strip()` removes: tab,
    * newline, vertical tab, form feed, carriage return, the four information
    * separators U+001C-U+001F, space, next line, no-break space, and the
    * Unicode space and separator characters. */
  const Whitespace: set<char> := {
    '\t', '\n', '\U{000B}', '\U{000C}', '\r',
    '\U{001C}', '\U{001D}', '\U{001E}', '\U{001F}', ' ',
    '\U{0085}', '\U{00A0}', '\U{1680}',
    '\U{2000}', '\U{2001}', '\U{2002}', '\U{2003}', '\U{2004}', '\U{2005}',
    '\U{2006}', '\U{2007}', '\U{2008}', '\U{2009}', '\U{200A}',
    '\U{2028}', '\U{2029}', '\U{202F}', '\U{205F}', '\U{3000}'}

  predicate IsUpper(c: char) { 'A' <= c <= 'Z' }

  predicate IsLower(c: char) { 'a' <= c <= 'z' }

  predicate AllIn(s: string, cs: set<char>) {
    forall i :: 0 <= i < |s| ==> s[i] in cs
  }

  // ---------------------------------------------------------------------
  // strip

  /** No character of `cs` at either end of `s`. */
  predicate Stripped(s: string, cs: set<char>) {
    s == [] || (s[0] !in cs && s[|s| - 1] !in cs)
  }

  /** `s` without its leading characters in `cs`. */
  function StripLeft(s: string, cs: set<char>): string {
    if s != [] && s[0] in cs then StripLeft(s[1..], cs) else s
  }

  /** What `StripLeft` cuts off is a prefix made of characters of `cs`, and
    * what it leaves does not start with one. */
  lemma {:induction false} StripLeftSpec(s: string, cs: set<char>)
    ensures |StripLeft(s, cs)| <= |s| && StripLeft(s, cs) == s[|s| - |StripLeft(s, cs)|..]
    ensures AllIn(s[..|s| - |StripLeft(s, cs)|], cs)
    ensures StripLeft(s, cs) == [] || StripLeft(s, cs)[0] !in cs
  {
    if s != [] && s[0] in cs {
      StripLeftSpec(s[1..], cs);
      var r := StripLeft(s, cs);
      assert s[..|s| - |r|] == [s[0]] + s[1..][..|s| - 1 - |r|];
    }
  }

  /** `s` without its trailing characters in `cs`. */
  function StripRight(s: string, cs: set<char>): string {
    if s != [] && s[|s| - 1] in cs then StripRight(s[..|s| - 1], cs) else s
  }

  /** What `StripRight` cuts off is a suffix made of characters of `cs`, and
    * what it leaves does not end with one. */
  lemma {:induction false} StripRightSpec(s: string, cs: set<char>)
    ensures |StripRight(s, cs)| <= |s| && StripRight(s, cs) == s[..|StripRight(s, cs)|]
    ensures AllIn(s[|StripRight(s, cs)|..], cs)
    ensures StripRight(s, cs) == [] || StripRight(s, cs)[|StripRight(s, cs)| - 1] !in cs
  {
    if s != [] && s[|s| - 1] in cs {
      var init := s[..|s| - 1];
      StripRightSpec(init, cs);
      var r := StripRight(s, cs);
      assert s[|r|..] == init[|r|..] + [s[|s| - 1]];
      assert r == init[..|r|];
    }
  }

  /** Python's `s.strip(chars)`: every leading and every trailing character
    * in `cs` removed (see `StripCharsSpec`). */
  function StripChars(s: string, cs: set<char>): string {
    StripRight(StripLeft(s, cs), cs)
  }

  /** The stripped text has no character of `cs` at either end, and it is the
    * slice of `s` that remains once a prefix and a suffix made only of
    * characters of `cs` are cut off. */
  lemma StripCharsSpec(s: string, cs: set<char>)
    ensures Stripped(StripChars(s, cs), cs)
    ensures exists i :: 0 <= i <= |s| - |StripChars(s, cs)|
                        && StripChars(s, cs) == s[i..i + |StripChars(s, cs)|]
                        && AllIn(s[..i], cs) && AllIn(s[i + |StripChars(s, cs)|..], cs)
  {
    var l := StripLeft(s, cs);
    var r := StripRight(l, cs);
    StripLeftSpec(s, cs);
    StripRightSpec(l, cs);
    var i := |s| - |l|;
    assert s[i..i + |r|] == r;
    assert s[i + |r|..] == l[|r|..];
  }

  /** Python's `s.strip()`. */
  function Strip(s: string): string {
    StripChars(s, Whitespace)
  }

  /** Stripping a stripped text changes nothing. */
  lemma StripStable(s: string, cs: set<char>)
    requires Stripped(s, cs)
    ensures StripChars(s, cs) == s
  {
    assert StripLeft(s, cs) == s;
  }

  // ---------------------------------------------------------------------
  // split and join

  predicate OccursAt(s: string, sep: string, k: int) {
    0 <= k && k + |sep| <= |s| && s[k..k + |sep|] == sep
  }

  predicate Contains(s: string, sep: string) {
    exists k :: 0 <= k <= |s| && OccursAt(s, sep, k)
  }

  /** Position of the leftmost occurrence of `sep` in `s`, or `|s|` if none
    * (see `FindSpec`). */
  function Find(s: string, sep: string): (k: nat)
    requires sep != []
    ensures k <= |s|
    ensures k < |s| ==> OccursAt(s, sep, k)
    decreases |s|
  {
    if |s| < |sep| then |s|
    else if s[..|sep|] == sep then 0
    else
      OccursAtTail(s, sep, 1 + Find(s[1..], sep));
      1 + Find(s[1..], sep)
  }

  /** `Find` gives the first occurrence: there is none before it, and it is
    * `|s|` exactly when there is none at all. */
  lemma {:induction false} FindSpec(s: string, sep: string)
    requires sep != []
    ensures forall j :: 0 <= j < Find(s, sep) ==> !OccursAt(s, sep, j)
    ensures Find(s, sep) == |s| <==> !Contains(s, sep)
    decreases |s|
  {
    if |s| >= |sep| && s[..|sep|] != sep {
      FindSpec(s[1..], sep);
      forall j | 1 <= j <= |s| ensures OccursAt(s, sep, j) <==> OccursAt(s[1..], sep, j - 1) {
        OccursAtTail(s, sep, j);
      }
      if !Contains(s, sep) {
        assert !Contains(s[1..], sep) by {
          forall j | 0 <= j <= |s| - 1 ensures !OccursAt(s[1..], sep, j) {
            assert !OccursAt(s, sep, j + 1);
          }
        }
      }
    } else if |s| < |sep| {
      assert !Contains(s, sep);
    }
  }

  lemma OccursAtTail(s: string, sep: string, j: int)
    requires 1 <= j <= |s|
    ensures OccursAt(s, sep, j) <==> OccursAt(s[1..], sep, j - 1)
  {
    if j + |sep| <= |s| {
      assert s[1..][j - 1..j - 1 + |sep|] == s[j..j + |sep|];
    }
  }

  /** Python's `s.split(sep)` for a non-empty separator: the pieces between
    * the occurrences of `sep`, found left to right; there is always at least
    * one piece (see also `SplitSpec` and `JoinSplit`). */
  function Split(s: string, sep: string): (r: seq<string>)
    requires sep != []
    ensures |r| >= 1
    decreases |s|
  {
    var k := Find(s, sep);
    if k == |s| then [s]
    else [s[..k]] + Split(s[k + |sep|..], sep)
  }

  /** No piece of a split contains the separator, and every character of a
    * piece is a character of the text. */
  lemma {:induction false} SplitSpec(s: string, sep: string)
    requires sep != []
    ensures forall i :: 0 <= i < |Split(s, sep)| ==> !Contains(Split(s, sep)[i], sep)
    ensures forall i, c :: 0 <= i < |Split(s, sep)| && c in Split(s, sep)[i] ==> c in s
    decreases |s|
  {
    var k := Find(s, sep);
    FindSpec(s, sep);
    if k < |s| {
      var head := s[..k];
      assert !Contains(head, sep) by {
        forall j | OccursAt(head, sep, j) ensures OccursAt(s, sep, j) {
          assert head[j..j + |sep|] == s[j..j + |sep|];
        }
      }
      var tail := s[k + |sep|..];
      var rest := Split(tail, sep);
      SplitSpec(tail, sep);
      var r := Split(s, sep);
      assert r == [head] + rest;
      forall i, c | 0 <= i < |r| && c in r[i] ensures c in s {
        if i == 0 {
          var m :| 0 <= m < |head| && head[m] == c;
          assert s[m] == c;
        } else {
          assert r[i] == rest[i - 1];
          assert c in tail;
          var m :| 0 <= m < |tail| && tail[m] == c;
          assert s[k + |sep| + m] == c;
        }
      }
    }
  }

  /** Python's `sep.join(parts)`. */
  function Join(parts: seq<string>, sep: string): string {
    if parts == [] then ""
    else if |parts| == 1 then parts[0]
    else parts[0] + sep + Join(parts[1..], sep)
  }

  /** Joining the pieces of a split with the separator gives the text back. */
  lemma {:induction false} JoinSplit(s: string, sep: string)
    requires sep != []
    ensures Join(Split(s, sep), sep) == s
    decreases |s|
  {
    var k := Find(s, sep);
    if k < |s| {
      var tail := s[k + |sep|..];
      var rest := Split(tail, sep);
      JoinSplit(tail, sep);
      assert ([s[..k]] + rest)[1..] == rest;
      assert s == s[..k] + s[k..k + |sep|] + tail;
    }
  }

  /** `Find` gives the first occurrence, so any first occurrence is its result. */
  lemma FindIsFirst(t: string, sep: string, k: nat)
    requires sep != [] && k <= |t|
    requires k < |t| ==> OccursAt(t, sep, k)
    requires k == |t| ==> !Contains(t, sep)
    requires forall j :: 0 <= j < k ==> !OccursAt(t, sep, j)
    ensures Find(t, sep) == k
  {
    FindSpec(t, sep);
  }

  lemma OccursAtChar(t: string, c: char, j: int)
    ensures OccursAt(t, [c], j) <==> 0 <= j < |t| && t[j] == c
  {
    if 0 <= j < |t| && t[j] == c {
      assert t[j..j + 1] == [c];
    }
  }

  lemma FindExtend(s: string, c: char, k: nat)
    requires k <= |s|
    requires k < |s| ==> OccursAt(s, [c], k)
    requires k == |s| ==> !Contains(s, [c])
    requires forall j :: 0 <= j < k ==> !OccursAt(s, [c], j)
    ensures Find(s + [c], [c]) == k
  {
    var t := s + [c];
    OccursAtChar(t, c, k);
    if k < |s| {
      OccursAtChar(s, c, k);
    }
    forall j | 0 <= j < k ensures !OccursAt(t, [c], j) {
      OccursAtChar(s, c, j);
      OccursAtChar(t, c, j);
    }
    FindIsFirst(t, [c], k);
  }

  /** Appending one separator character to a text appends one empty piece to
    * its split. */
  lemma {:induction false} SplitAppendSeparator(s: string, c: char)
    ensures Split(s + [c], [c]) == Split(s, [c]) + [""]
    decreases |s|
  {
    var t := s + [c];
    var k := Find(s, [c]);
    FindSpec(s, [c]);
    FindExtend(s, c, k);
    if k == |s| {
      assert t[|s| + 1..] == [];
    } else {
      assert t[..k] == s[..k];
      assert t[k + 1..] == s[k + 1..] + [c];
      SplitAppendSeparator(s[k + 1..], c);
    }
  }

  /** Splitting at a character leaves that character in no piece. */
  lemma SplitRemovesChar(s: string, c: char)
    ensures forall k :: 0 <= k < |Split(s, [c])| ==> c !in Split(s, [c])[k]
  {
    var r := Split(s, [c]);
    SplitSpec(s, [c]);
    forall k | 0 <= k < |r| ensures c !in r[k] {
      if c in r[k] {
        var m :| 0 <= m < |r[k]| && r[k][m] == c;
        OccursAtChar(r[k], c, m);
      }
    }
  }

  /** A text without the separator character is a single piece. */
  lemma SplitWithout(s: string, c: char)
    requires c !in s
    ensures Split(s, [c]) == [s]
  {
    FindSpec(s, [c]);
    OccursAtChar(s, c, Find(s, [c]));
  }

  /** The first separator character ends the first piece. */
  lemma SplitAtFirst(a: string, c: char, b: string)
    requires c !in a
    ensures Split(a + [c] + b, [c]) == [a] + Split(b, [c])
  {
    var s := a + [c] + b;
    assert s[|a|] == c;
    OccursAtChar(s, c, |a|);
    forall j | 0 <= j < |a| ensures !OccursAt(s, [c], j) {
      OccursAtChar(s, c, j);
      assert s[j] == a[j];
    }
    FindIsFirst(s, [c], |a|);
    assert s[..|a|] == a;
    assert s[|a| + 1..] == b;
  }

  /** Splitting pieces that hold no separator character, once joined with
    * it, gives the pieces back: the other direction of `JoinSplit`. */
  lemma {:induction false} SplitJoin(parts: seq<string>, c: char)
    requires |parts| >= 1
    requires forall i :: 0 <= i < |parts| ==> c !in parts[i]
    ensures Split(Join(parts, [c]), [c]) == parts
    decreases |parts|
  {
    if |parts| == 1 {
      SplitWithout(parts[0], c);
    } else {
      SplitJoin(parts[1..], c);
      SplitAtFirst(parts[0], c, Join(parts[1..], [c]));
      assert parts == [parts[0]] + parts[1..];
    }
  }

  /** The joined text ends with the last piece. */
  lemma {:induction false} JoinEndsWith(parts: seq<string>, sep: string)
    requires |parts| >= 1
    ensures var j := Join(parts, sep); var last := parts[|parts| - 1];
      |last| <= |j| && j[|j| - |last|..] == last
    decreases |parts|
  {
    if |parts| > 1 {
      JoinEndsWith(parts[1..], sep);
      var rest := Join(parts[1..], sep);
      var last := parts[|parts| - 1];
      assert parts[1..][|parts| - 2] == last;
      var j := parts[0] + sep + rest;
      assert j[|j| - |last|..] == rest[|rest| - |last|..];
    }
  }

  /** A character that is not the separator and is in no piece is not in the
    * joined text. */
  lemma {:induction false} JoinAvoids(parts: seq<string>, c: char, x: char)
    requires x != c
    requires forall i :: 0 <= i < |parts| ==> x !in parts[i]
    ensures x !in Join(parts, [c])
    decreases |parts|
  {
    if |parts| > 1 {
      JoinAvoids(parts[1..], c, x);
    }
  }

  // ---------------------------------------------------------------------
  // case and character rewrites

  function LowerChar(c: char): char {
    if IsUpper(c) then (c as int + 32) as char else c
  }

  /** Python's `s.lower()` over ASCII. */
  function Lower(s: string): string {
    seq(|s|, i requires 0 <= i < |s| => LowerChar(s[i]))
  }

  /** Python's `s.replace(a, b)` for one-character `a` and `b`. */
  function ReplaceChar(s: string, a: char, b: char): string {
    seq(|s|, i requires 0 <= i < |s| => if s[i] == a then b else s[i])
  }

  /** After replacing `a` by another character, `a` is gone, and nothing
    * else moved. */
  lemma ReplaceCharRemoves(s: string, a: char, b: char)
    requires a != b
    ensures a !in ReplaceChar(s, a, b)
    ensures |ReplaceChar(s, a, b)| == |s|
  {
  }

  /** `s.lower().replace(' ', '_')`, the normalisation the scraper applies to
    * button labels and table headings (see `SnakeCaseSpec`). */
  function SnakeCase(s: string): string {
    ReplaceChar(Lower(s), ' ', '_')
  }

  /** The normalised text has the same length, no space and no upper-case
    * letter, and every other character is kept. */
  lemma SnakeCaseSpec(s: string)
    ensures |SnakeCase(s)| == |s|
    ensures forall i :: 0 <= i < |s| ==> SnakeCase(s)[i] != ' ' && !IsUpper(SnakeCase(s)[i])
    ensures forall i :: 0 <= i < |s| && s[i] != ' ' && !IsUpper(s[i]) ==> SnakeCase(s)[i] == s[i]
  {
  }

  /** Normalising twice is normalising once. */
  lemma SnakeCaseIdempotent(s: string)
    ensures SnakeCase(SnakeCase(s)) == SnakeCase(s)
  {
  }

  /** Labels that differ only in letter case normalise alike. */
  lemma SnakeCaseIgnoresCase(s: string, t: string)
    requires Lower(s) == Lower(t)
    ensures SnakeCase(s) == SnakeCase(t)
  {
  }

  /** `re.sub(r',$', '', s)`: one trailing comma, if any, is removed. */
  function DropTrailingComma(s: string): (r: string)
    ensures s == r || s == r + ","
    ensures r == s <==> (s == [] || s[|s| - 1] != ',')
  {
    if s != [] && s[|s| - 1] == ',' then s[..|s| - 1] else s
  }

  // ---------------------------------------------------------------------
  // runs of whitespace

  /** `k` whitespace characters in a row start at position `i` of `s`. */
  predicate SpaceRunAt(s: string, i: int, k: nat) {
    0 <= i && i + k <= |s| && forall j :: i <= j < i + k ==> s[j] in Whitespace
  }

  /** `s` holds no run of `k` or more whitespace characters. */
  predicate NoSpaceRun(s: string, k: nat) {
    forall i :: 0 <= i <= |s| ==> !SpaceRunAt(s, i, k)
  }

  /** Length of the run of whitespace that begins `s`. */
  function LeadingSpaces(s: string): (n: nat)
    ensures n <= |s|
  {
    if s != [] && s[0] in Whitespace then 1 + LeadingSpaces(s[1..]) else 0
  }

  /** The leading run is all whitespace and stops at the first other
    * character. */
  lemma {:induction false} LeadingSpacesSpec(s: string)
    ensures forall i :: 0 <= i < LeadingSpaces(s) ==> s[i] in Whitespace
    ensures LeadingSpaces(s) == |s| || s[LeadingSpaces(s)] !in Whitespace
  {
    if s != [] && s[0] in Whitespace {
      LeadingSpacesSpec(s[1..]);
    }
  }

  /** `re.sub(r'\s{k,}', ',', s)`, which the scraper writes `\s\s+` for
    * `k == 2` and `\s\s\s+` for `k == 3`: the regular expression is greedy
    * and scans left to right, so every maximal run of at least `k`
    * whitespace characters becomes one comma and shorter runs stay as they
    * are (see `CollapseSpaceRunsSpec`, `CollapseAtRun` and
    * `CollapseKeepsRunFree`). */
  function CollapseSpaceRuns(s: string, k: nat): string
    requires k >= 1
    decreases |s|
  {
    if s == [] then []
    else if s[0] !in Whitespace then [s[0]] + CollapseSpaceRuns(s[1..], k)
    else
      var n := LeadingSpaces(s);
      (if n >= k then "," else s[..n]) + CollapseSpaceRuns(s[n..], k)
  }

  /** The rewritten text has no run of `k` whitespace characters left, and a
    * first non-whitespace character is kept. */
  lemma {:induction false} CollapseSpaceRunsSpec(s: string, k: nat)
    requires k >= 1
    ensures NoSpaceRun(CollapseSpaceRuns(s, k), k)
    ensures s != [] && s[0] !in Whitespace ==>
              CollapseSpaceRuns(s, k) != [] && CollapseSpaceRuns(s, k)[0] == s[0]
    decreases |s|
  {
    if s != [] {
      if s[0] !in Whitespace {
        CollapseSpaceRunsSpec(s[1..], k);
        NoRunAfterNonSpace(s[0], CollapseSpaceRuns(s[1..], k), k);
      } else {
        var n := LeadingSpaces(s);
        var rest := CollapseSpaceRuns(s[n..], k);
        LeadingSpacesSpec(s);
        CollapseSpaceRunsSpec(s[n..], k);
        if n >= k {
          NoRunAfterNonSpace(',', rest, k);
        } else {
          NoRunAfterShortRun(s[..n], rest, k);
        }
      }
    }
  }

  lemma NoRunAfterNonSpace(c: char, b: string, k: nat)
    requires c !in Whitespace && k >= 1 && NoSpaceRun(b, k)
    ensures NoSpaceRun([c] + b, k)
  {
    var s := [c] + b;
    forall i | 0 <= i <= |s| ensures !SpaceRunAt(s, i, k) {
      if i == 0 {
        assert s[0] !in Whitespace;
      } else if i + k <= |s| {
        assert !SpaceRunAt(b, i - 1, k);
        var j :| i - 1 <= j < i - 1 + k && b[j] !in Whitespace;
        assert s[j + 1] == b[j];
      }
    }
  }

  lemma NoRunAfterShortRun(a: string, b: string, k: nat)
    requires |a| < k && NoSpaceRun(b, k)
    requires b == [] || b[0] !in Whitespace
    ensures NoSpaceRun(a + b, k)
  {
    var s := a + b;
    forall i | 0 <= i <= |s| ensures !SpaceRunAt(s, i, k) {
      if i + k <= |s| {
        if i < |a| {
          assert s[|a|] == b[0];
        } else {
          assert !SpaceRunAt(b, i - |a|, k);
          var j :| i - |a| <= j < i - |a| + k && b[j] !in Whitespace;
          assert s[j + |a|] == b[j];
        }
      }
    }
  }

  /** A text that already has no run of `k` whitespace characters is left
    * unchanged by the rewrite. */
  lemma {:induction false} CollapseKeepsRunFree(s: string, k: nat)
    requires k >= 1 && NoSpaceRun(s, k)
    ensures CollapseSpaceRuns(s, k) == s
    decreases |s|
  {
    if s != [] {
      if s[0] !in Whitespace {
        NoSpaceRunSuffix(s, 1, k);
        CollapseKeepsRunFree(s[1..], k);
        assert s == [s[0]] + s[1..];
      } else {
        var n := LeadingSpaces(s);
        LeadingSpacesSpec(s);
        assert !SpaceRunAt(s, 0, k);
        NoSpaceRunSuffix(s, n, k);
        CollapseKeepsRunFree(s[n..], k);
        assert s == s[..n] + s[n..];
      }
    }
  }

  /** Rewriting runs twice is rewriting them once. */
  lemma CollapseIdempotent(s: string, k: nat)
    requires k >= 1
    ensures CollapseSpaceRuns(CollapseSpaceRuns(s, k), k) == CollapseSpaceRuns(s, k)
  {
    CollapseSpaceRunsSpec(s, k);
    CollapseKeepsRunFree(CollapseSpaceRuns(s, k), k);
  }

  /** A leading run that stops inside `a` is not lengthened by what follows. */
  lemma LeadingSpacesAppend(a: string, x: string)
    requires LeadingSpaces(a) < |a|
    ensures LeadingSpaces(a + x) == LeadingSpaces(a)
  {
    var n := LeadingSpaces(a);
    var m := LeadingSpaces(a + x);
    LeadingSpacesSpec(a);
    LeadingSpacesSpec(a + x);
    assert (a + x)[n] == a[n];
    assert forall i :: 0 <= i < n ==> (a + x)[i] == a[i];
  }

  /** A text that opens with a run of at least `k` whitespace characters
    * followed by a non-whitespace character: the run becomes a comma. */
  lemma CollapseLeadingRun(w: string, b: string, k: nat)
    requires k >= 1 && AllIn(w, Whitespace) && |w| >= k
    requires b == [] || b[0] !in Whitespace
    ensures CollapseSpaceRuns(w + b, k) == "," + CollapseSpaceRuns(b, k)
  {
    var s := w + b;
    var n := LeadingSpaces(s);
    LeadingSpacesSpec(s);
    assert s[0] == w[0];
    if b != [] {
      assert s[|w|] == b[0];
    }
    assert s[n..] == b;
  }

  /** A text that opens with a non-whitespace character keeps it. */
  lemma CollapseNonSpaceHead(a: string, y: string, k: nat)
    requires k >= 1 && a != [] && a[0] !in Whitespace
    ensures CollapseSpaceRuns(a, k) == [a[0]] + CollapseSpaceRuns(a[1..], k)
    ensures CollapseSpaceRuns(a + y, k) == [a[0]] + CollapseSpaceRuns(a[1..] + y, k)
  {
    assert (a + y)[0] == a[0];
    assert (a + y)[1..] == a[1..] + y;
  }

  /** A text that opens with a whitespace run ending inside `a`: the run is
    * rewritten the same whatever follows `a`. */
  lemma CollapseSpaceHead(a: string, y: string, k: nat)
    requires k >= 1 && a != [] && a[0] in Whitespace && LeadingSpaces(a) < |a|
    ensures var n := LeadingSpaces(a);
      && CollapseSpaceRuns(a, k) == (if n >= k then "," else a[..n]) + CollapseSpaceRuns(a[n..], k)
      && CollapseSpaceRuns(a + y, k) == (if n >= k then "," else a[..n]) + CollapseSpaceRuns(a[n..] + y, k)
  {
    var n := LeadingSpaces(a);
    LeadingSpacesAppend(a, y);
    assert (a + y)[0] == a[0];
    assert (a + y)[n..] == a[n..] + y;
    assert (a + y)[..n] == a[..n];
  }

  /** The step of `CollapseAtRun` past a non-whitespace first character. */
  lemma CollapseAtRunNonSpace(a: string, w: string, b: string, k: nat)
    requires k >= 1 && a != [] && a[0] !in Whitespace
    requires CollapseSpaceRuns(a[1..] + w + b, k) ==
               CollapseSpaceRuns(a[1..], k) + "," + CollapseSpaceRuns(b, k)
    ensures CollapseSpaceRuns(a + w + b, k) == CollapseSpaceRuns(a, k) + "," + CollapseSpaceRuns(b, k)
  {
    var t := a[1..];
    CollapseNonSpaceHead(a, w + b, k);
    assert a + w + b == a + (w + b);
    assert t + (w + b) == t + w + b;
  }

  /** The step of `CollapseAtRun` past a whitespace run that ends inside `a`. */
  lemma CollapseAtRunSpace(a: string, w: string, b: string, k: nat)
    requires k >= 1 && a != [] && a[0] in Whitespace && LeadingSpaces(a) < |a|
    requires var n := LeadingSpaces(a);
      CollapseSpaceRuns(a[n..] + w + b, k) == CollapseSpaceRuns(a[n..], k) + "," + CollapseSpaceRuns(b, k)
    ensures CollapseSpaceRuns(a + w + b, k) == CollapseSpaceRuns(a, k) + "," + CollapseSpaceRuns(b, k)
  {
    var n := LeadingSpaces(a);
    CollapseSpaceHead(a, w + b, k);
    assert a + w + b == a + (w + b);
    assert a[n..] + (w + b) == a[n..] + w + b;
  }

  /** A run of at least `k` whitespace characters between two non-whitespace
    * characters becomes one comma, and the text on either side is rewritten
    * on its own. With `CollapseKeepsRunFree` this fixes the rewrite on every
    * text. */
  lemma {:induction false} CollapseAtRun(a: string, w: string, b: string, k: nat)
    requires k >= 1
    requires a == [] || a[|a| - 1] !in Whitespace
    requires AllIn(w, Whitespace) && |w| >= k
    requires b == [] || b[0] !in Whitespace
    ensures CollapseSpaceRuns(a + w + b, k) == CollapseSpaceRuns(a, k) + "," + CollapseSpaceRuns(b, k)
    decreases |a|
  {
    if a == [] {
      CollapseLeadingRun(w, b, k);
      assert a + w + b == w + b;
    } else if a[0] !in Whitespace {
      CollapseAtRun(a[1..], w, b, k);
      CollapseAtRunNonSpace(a, w, b, k);
    } else {
      var n := LeadingSpaces(a);
      LeadingSpacesSpec(a);
      assert a[|a| - 1] !in Whitespace;
      CollapseAtRun(a[n..], w, b, k);
      CollapseAtRunSpace(a, w, b, k);
    }
  }

  /** A field of a row: not empty, no whitespace at either end, and no run
    * of `k` whitespace characters inside. */
  predicate IsField(f: string, k: nat) {
    f != [] && Stripped(f, Whitespace) && NoSpaceRun(f, k)
  }

  /** A separating run: at least `k` whitespace characters. */
  predicate IsRun(w: string, k: nat) {
    |w| >= k && AllIn(w, Whitespace)
  }

  /** The text `fields[0] + runs[0] + fields[1] + … + fields[n]`. */
  function Interleave(fields: seq<string>, runs: seq<string>): string
    requires |fields| == |runs| + 1
    decreases |runs|
  {
    if runs == [] then fields[0]
    else fields[0] + runs[0] + Interleave(fields[1..], runs[1..])
  }

  lemma InterleaveStart(fields: seq<string>, runs: seq<string>)
    requires |fields| == |runs| + 1 && fields[0] != []
    ensures Interleave(fields, runs) != [] && Interleave(fields, runs)[0] == fields[0][0]
  {
  }

  /** Fields separated by runs of at least `k` whitespace characters are
    * rewritten into the same fields separated by single commas. */
  lemma {:induction false} CollapseInterleave(fields: seq<string>, runs: seq<string>, k: nat)
    requires k >= 1 && |fields| == |runs| + 1
    requires forall i :: 0 <= i < |fields| ==> IsField(fields[i], k)
    requires forall i :: 0 <= i < |runs| ==> IsRun(runs[i], k)
    ensures CollapseSpaceRuns(Interleave(fields, runs), k) == Join(fields, ",")
    decreases |runs|
  {
    CollapseKeepsRunFree(fields[0], k);
    if runs != [] {
      var rest := Interleave(fields[1..], runs[1..]);
      CollapseInterleave(fields[1..], runs[1..], k);
      InterleaveStart(fields[1..], runs[1..]);
      CollapseAtRun(fields[0], runs[0], rest, k);
    }
  }

  lemma NoSpaceRunSuffix(s: string, n: nat, k: nat)
    requires n <= |s| && NoSpaceRun(s, k)
    ensures NoSpaceRun(s[n..], k)
  {
    var t := s[n..];
    forall i | 0 <= i <= |t| ensures !SpaceRunAt(t, i, k) {
      if i + k <= |t| {
        assert !SpaceRunAt(s, i + n, k);
        var j :| i + n <= j < i + n + k && s[j] !in Whitespace;
        assert t[j - n] == s[j];
      }
    }
  }

  lemma NoSpaceRunPrefix(s: string, n: nat, k: nat)
    requires n <= |s| && NoSpaceRun(s, k)
    ensures NoSpaceRun(s[..n], k)
  {
    var t := s[..n];
    forall i | 0 <= i <= |t| ensures !SpaceRunAt(t, i, k) {
      if i + k <= |t| {
        assert !SpaceRunAt(s, i, k);
        var j :| i <= j < i + k && s[j] !in Whitespace;
        assert t[j] == s[j];
      }
    }
  }

  /** Replacing a character by a non-whitespace one creates no run. */
  lemma NoSpaceRunReplace(s: string, a: char, b: char, k: nat)
    requires NoSpaceRun(s, k) && b !in Whitespace
    ensures NoSpaceRun(ReplaceChar(s, a, b), k)
  {
    var r := ReplaceChar(s, a, b);
    forall i | 0 <= i <= |r| ensures !SpaceRunAt(r, i, k) {
      if i + k <= |r| {
        assert !SpaceRunAt(s, i, k);
        var j :| i <= j < i + k && s[j] !in Whitespace;
        assert r[j] !in Whitespace;
      }
    }
  }
}
