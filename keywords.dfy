/**
 * ElasticSearch::filterKeywords: the fixed chain of rewrites that makes user
 * keywords safe for the Lucene 3.0 query-string parser. Each step of the chain
 * is one function below whose contract says what it guarantees on its own; the
 * lemmas at the end combine them into the shape of the whole pipeline's output.
 */
module Keywords {

  // ---------------------------------------------------------------------------
  // Character classes
  // ---------------------------------------------------------------------------

  /** PCRE's `\s`: space, tab, newline, vertical tab, form feed, carriage return. */
  predicate IsSpace(c: char) {
    c == ' ' || c == '\t' || c == '\n' || c == '\U{B}' || c == '\U{C}' || c == '\r'
  }

  /** `[a-zA-Z0-9_-]`, a character of a field name. */
  predicate IsFieldChar(c: char) {
    ('a' <= c <= 'z') || ('A' <= c <= 'Z') || ('0' <= c <= '9') || c == '_' || c == '-'
  }

  /** The query operators `+` and `-`. */
  predicate IsOperator(c: char) {
    c == '+' || c == '-'
  }

  /** The character list of `trim($keywords, '-+ ')`. */
  const EdgeChars: set<char> := {'-', '+', ' '}

  /** The characters PHP's `trim()` strips when given no list. */
  const DefaultTrim: set<char> := {' ', '\t', '\n', '\r', '\0', '\U{B}'}

  /** Wildcards `*`, `?` and fuzzy `~`. */
  const Wildcards: set<char> := {'*', '?', '~'}

  /** Range braces. */
  const RangeBraces: set<char> := {'{', '}'}

  /** Grouping parentheses and brackets. */
  const Groupings: set<char> := {'(', ')', '[', ']'}

  /** Boost `^` and not `!`. */
  const Boost: set<char> := {'^'}
  const Negation: set<char> := {'!'}

  /** Every single character the pipeline deletes outright. */
  const Metachars: set<char> := Wildcards + RangeBraces + Groupings + Boost + Negation


  // ---------------------------------------------------------------------------
  // Counting characters
  // ---------------------------------------------------------------------------

  /** The number of occurrences of `c` in `s`: `substr_count($s, c)` for one character. */
  function Count(s: string, c: char): nat {
    if s == [] then 0 else (if s[0] == c then 1 else 0) + Count(s[1..], c)
  }

  lemma {:induction false} CountAppend(a: string, b: string, c: char)
    ensures Count(a + b, c) == Count(a, c) + Count(b, c)
  {
    if a != [] {
      assert (a + b)[0] == a[0];
      assert (a + b)[1..] == a[1..] + b;
      CountAppend(a[1..], b, c);
    } else {
      assert a + b == b;
    }
  }

  lemma {:induction false} CountZero(s: string, c: char)
    ensures Count(s, c) == 0 <==> c !in s
  {
    if s != [] {
      CountZero(s[1..], c);
      assert c in s <==> s[0] == c || c in s[1..];
    }
  }

  // ---------------------------------------------------------------------------
  // Constraints on adjacent characters
  // ---------------------------------------------------------------------------

  /** A rule about two neighbouring characters. */
  datatype Adjacency =
    | NotBoth(p: char)      // no `pp`
    | NoFieldColon          // no field character followed by `:`
    | HyphenAfterSpace      // a `-` only right after a space
    | NoOperatorGap         // no `+` or `-` followed by whitespace

  predicate Allows(rule: Adjacency, a: char, b: char) {
    match rule
    case NotBoth(p) => !(a == p && b == p)
    case NoFieldColon => !(IsFieldChar(a) && b == ':')
    case HyphenAfterSpace => b == '-' ==> a == ' '
    case NoOperatorGap => !(IsOperator(a) && IsSpace(b))
  }

  /** Every two neighbouring characters of `s` obey `rule`. */
  ghost predicate Adjacent(s: string, rule: Adjacency) {
    forall i, j :: 0 <= i < j < |s| && j == i + 1 ==> Allows(rule, s[i], s[j])
  }

  lemma AdjacentCons(x: char, t: string, rule: Adjacency)
    ensures Adjacent([x] + t, rule) <==> (t == [] || Allows(rule, x, t[0])) && Adjacent(t, rule)
  {
    var s := [x] + t;
    if (t == [] || Allows(rule, x, t[0])) && Adjacent(t, rule) {
      forall i, j | 0 <= i < j < |s| && j == i + 1
        ensures Allows(rule, s[i], s[j])
      {
        if i > 0 {
          assert s[i] == t[i - 1] && s[j] == t[j - 1];
        }
      }
    }
    if Adjacent(s, rule) {
      if t != [] {
        assert s[0] == x && s[1] == t[0];
      }
      forall i, j | 0 <= i < j < |t| && j == i + 1
        ensures Allows(rule, t[i], t[j])
      {
        assert s[i + 1] == t[i] && s[j + 1] == t[j];
      }
    }
  }

  lemma AdjacentAppend(a: string, b: string, rule: Adjacency)
    requires Adjacent(a, rule) && Adjacent(b, rule)
    requires a == [] || b == [] || Allows(rule, a[|a| - 1], b[0])
    ensures Adjacent(a + b, rule)
  {
    var s := a + b;
    forall i, j | 0 <= i < j < |s| && j == i + 1
      ensures Allows(rule, s[i], s[j])
    {
      if j < |a| {
        assert s[i] == a[i] && s[j] == a[j];
      } else if i >= |a| {
        assert s[i] == b[i - |a|] && s[j] == b[j - |a|];
      } else {
        assert s[i] == a[|a| - 1] && s[j] == b[0];
      }
    }
  }

  lemma AdjacentSlice(s: string, lo: int, hi: int, rule: Adjacency)
    requires 0 <= lo <= hi <= |s| && Adjacent(s, rule)
    ensures Adjacent(s[lo..hi], rule)
  {
    var t := s[lo..hi];
    forall i, j | 0 <= i < j < |t| && j == i + 1
      ensures Allows(rule, t[i], t[j])
    {
      assert t[i] == s[lo + i] && t[j] == s[lo + j];
    }
  }

  lemma AdjacentSuffix(s: string, k: int, rule: Adjacency)
    requires 0 <= k <= |s| && Adjacent(s, rule)
    ensures Adjacent(s[k..], rule)
  {
    AdjacentSlice(s, k, |s|, rule);
    assert s[k..|s|] == s[k..];
  }

  /** The only whitespace in `s` is the plain space. */
  ghost predicate OnlySpaces(s: string) {
    forall i :: 0 <= i < |s| && IsSpace(s[i]) ==> s[i] == ' '
  }

  /** The only whitespace is single spaces: no other kind, and never two in a row. */
  ghost predicate SingleSpaced(s: string) {
    OnlySpaces(s) && Adjacent(s, NotBoth(' '))
  }

  /** Every `-` follows a space; one in front is allowed only after a space (`spaced`). */
  ghost predicate HyphensSpacedAfter(s: string, spaced: bool) {
    (|s| > 0 && s[0] == '-' ==> spaced) && Adjacent(s, HyphenAfterSpace)
  }

  // ---------------------------------------------------------------------------
  // trim()
  // ---------------------------------------------------------------------------

  /** The first index from `i` on whose character is not in `cs`, or |s|. */
  function SkipForward(s: string, cs: set<char>, i: nat): (k: nat)
    requires i <= |s|
    decreases |s| - i
    ensures i <= k <= |s|
    ensures forall m :: i <= m < k ==> s[m] in cs
    ensures k < |s| ==> s[k] !in cs
  {
    if i < |s| && s[i] in cs then SkipForward(s, cs, i + 1) else i
  }

  /** The least `k` in `lo..j` with every character of s[k..j] in `cs`. */
  function SkipBackward(s: string, cs: set<char>, lo: nat, j: nat): (k: nat)
    requires lo <= j <= |s|
    decreases j
    ensures lo <= k <= j
    ensures forall m :: k <= m < j ==> s[m] in cs
    ensures k > lo ==> s[k - 1] !in cs
  {
    if j > lo && s[j - 1] in cs then SkipBackward(s, cs, lo, j - 1) else j
  }

  /**
   * `trim($s, $cs)`: `s` without its leading and trailing characters of `cs`.
   * It changes nothing exactly when neither end of `s` is in `cs`.
   */
  function Trim(s: string, cs: set<char>): (r: string)
    ensures r == [] || (r[0] !in cs && r[|r| - 1] !in cs)
    ensures r == s <==> s == [] || (s[0] !in cs && s[|s| - 1] !in cs)
  {
    var i := SkipForward(s, cs, 0);
    var j := SkipBackward(s, cs, i, |s|);
    assert s[0..|s|] == s;
    s[i..j]
  }

  /** What trim() removes is a prefix and a suffix made of characters of `cs`. */
  lemma TrimSlice(s: string, cs: set<char>)
    ensures exists i, j ::
              && 0 <= i <= j <= |s| && Trim(s, cs) == s[i..j]
              && (forall k :: 0 <= k < i ==> s[k] in cs)
              && (forall k :: j <= k < |s| ==> s[k] in cs)
  {
    var i := SkipForward(s, cs, 0);
    var j := SkipBackward(s, cs, i, |s|);
    assert Trim(s, cs) == s[i..j];
  }

  /** A string made only of characters of `cs` holds no other character. */
  lemma {:induction false} CountOutside(w: string, cs: set<char>, c: char)
    requires forall k :: 0 <= k < |w| ==> w[k] in cs
    requires c !in cs
    ensures Count(w, c) == 0
  {
    if w != [] {
      assert w[0] in cs;
      CountOutside(w[1..], cs, c);
    }
  }

  /** Counting over a string split in three places. */
  lemma CountSlices(s: string, i: int, j: int, c: char)
    requires 0 <= i <= j <= |s|
    ensures Count(s, c) == Count(s[..i], c) + Count(s[i..j], c) + Count(s[j..], c)
  {
    assert s == s[..i] + s[i..];
    CountAppend(s[..i], s[i..], c);
    assert s[i..] == s[i..j] + s[j..];
    CountAppend(s[i..j], s[j..], c);
  }

  /** Trimming removes only characters of `cs`. */
  lemma TrimCount(s: string, cs: set<char>, c: char)
    ensures Count(Trim(s, cs), c) <= Count(s, c)
    ensures c !in cs ==> Count(Trim(s, cs), c) == Count(s, c)
  {
    var i := SkipForward(s, cs, 0);
    var j := SkipBackward(s, cs, i, |s|);
    assert Trim(s, cs) == s[i..j];
    CountSlices(s, i, j, c);
    if c !in cs {
      var front, back := s[..i], s[j..];
      assert forall k :: 0 <= k < |front| ==> front[k] == s[k];
      assert forall k :: 0 <= k < |back| ==> back[k] == s[j + k];
      CountOutside(front, cs, c);
      CountOutside(back, cs, c);
    }
  }

  // ---------------------------------------------------------------------------
  // Deleting single characters
  // ---------------------------------------------------------------------------

  /** `preg_replace` of an alternation of single characters by "": every character of `cs` goes. */
  function DeleteChars(s: string, cs: set<char>): (r: string)
    ensures forall i :: 0 <= i < |r| ==> r[i] !in cs
    ensures |s| > 0 && s[0] !in cs ==> |r| > 0 && r[0] == s[0]
    ensures |r| <= |s|
  {
    if s == [] then [] else (if s[0] in cs then [] else [s[0]]) + DeleteChars(s[1..], cs)
  }

  /** Every character outside `cs` keeps its number of occurrences; those of `cs` have none. */
  lemma {:induction false} DeleteCharsCount(s: string, cs: set<char>, c: char)
    ensures Count(DeleteChars(s, cs), c) == if c in cs then 0 else Count(s, c)
  {
    if s != [] {
      DeleteCharsCount(s[1..], cs, c);
      CountAppend(if s[0] in cs then [] else [s[0]], DeleteChars(s[1..], cs), c);
    }
  }

  /** The deletion changes `s` exactly when `s` holds a character of `cs`. */
  lemma {:induction false} DeleteCharsFixed(s: string, cs: set<char>)
    ensures DeleteChars(s, cs) == s <==> forall i :: 0 <= i < |s| ==> s[i] !in cs
  {
    if s != [] {
      DeleteCharsFixed(s[1..], cs);
      assert s == [s[0]] + s[1..];
      if forall i :: 0 <= i < |s| ==> s[i] !in cs {
        assert forall i :: 0 <= i < |s[1..]| ==> s[1..][i] == s[i + 1];
      }
    }
  }

  // ---------------------------------------------------------------------------
  // Removing `&&` and `||`
  // ---------------------------------------------------------------------------

  /**
   * `preg_replace("/pp/", "", $s)`: `pp` pairs removed scanning left to right
   * without overlap, so `ppp` leaves `p`.
   */
  function RemovePairs(s: string, p: char): (r: string)
    ensures |s| > 0 && s[0] != p ==> |r| > 0 && r[0] == s[0]
    ensures |r| <= |s|
  {
    if |s| >= 2 && s[0] == p && s[1] == p then RemovePairs(s[2..], p)
    else if s == [] then []
    else [s[0]] + RemovePairs(s[1..], p)
  }

  /** No `pp` is left behind. */
  lemma {:induction false} RemovePairsShape(s: string, p: char)
    ensures Adjacent(RemovePairs(s, p), NotBoth(p))
  {
    if |s| >= 2 && s[0] == p && s[1] == p {
      RemovePairsShape(s[2..], p);
    } else if s != [] {
      RemovePairsShape(s[1..], p);
      AdjacentCons(s[0], RemovePairs(s[1..], p), NotBoth(p));
    }
  }

  /** A string is left alone exactly when it has no `pp`. */
  lemma {:induction false} RemovePairsFixed(s: string, p: char)
    ensures RemovePairs(s, p) == s <==> Adjacent(s, NotBoth(p))
  {
    RemovePairsShape(s, p);
    if Adjacent(s, NotBoth(p)) && s != [] {
      if |s| >= 2 {
        assert Allows(NotBoth(p), s[0], s[1]);
      }
      AdjacentSuffix(s, 1, NotBoth(p));
      RemovePairsFixed(s[1..], p);
      assert s == [s[0]] + s[1..];
    }
  }

  /** Every other character stays, and the number of `p` drops by an even number. */
  lemma {:induction false} RemovePairsCount(s: string, p: char, c: char)
    ensures c != p ==> Count(RemovePairs(s, p), c) == Count(s, c)
    ensures c == p ==> Count(RemovePairs(s, p), c) <= Count(s, c)
                       && (Count(s, c) - Count(RemovePairs(s, p), c)) % 2 == 0
  {
    if |s| >= 2 && s[0] == p && s[1] == p {
      RemovePairsCount(s[2..], p, c);
      assert s == [p, p] + s[2..];
      CountAppend([p, p], s[2..], c);
    } else if s != [] {
      RemovePairsCount(s[1..], p, c);
      CountAppend([s[0]], RemovePairs(s[1..], p), c);
    }
  }

  // ---------------------------------------------------------------------------
  // Removing field prefixes
  // ---------------------------------------------------------------------------

  /** The length of the run of field characters `s` starts with. */
  function FieldRun(s: string): (n: nat)
    ensures n <= |s|
    ensures forall i :: 0 <= i < n ==> IsFieldChar(s[i])
    ensures n < |s| ==> !IsFieldChar(s[n])
  {
    if s != [] && IsFieldChar(s[0]) then 1 + FieldRun(s[1..]) else 0
  }

  /**
   * `preg_replace("/([a-zA-Z0-9_-]+\:)/", "", $s)`: every maximal run of field
   * characters that is followed by `:` goes, with that `:`.
   */
  function RemoveFieldPrefixes(s: string): (r: string)
    decreases |s|
    ensures |s| > 0 && !IsFieldChar(s[0]) ==> |r| > 0 && r[0] == s[0]
    ensures |r| <= |s|
  {
    if s == [] then
      []
    else if IsFieldChar(s[0]) then
      var n := FieldRun(s);
      if n < |s| && s[n] == ':' then RemoveFieldPrefixes(s[n + 1..])
      else s[..n] + RemoveFieldPrefixes(s[n..])
    else
      [s[0]] + RemoveFieldPrefixes(s[1..])
  }

  /** A run of field characters has no field character followed by `:`. */
  lemma FieldRunAdjacent(w: string)
    requires forall i :: 0 <= i < |w| ==> IsFieldChar(w[i])
    ensures Adjacent(w, NoFieldColon)
  {
  }

  /** Afterwards no field character is followed by `:`. */
  lemma {:induction false} RemoveFieldPrefixesShape(s: string)
    decreases |s|
    ensures Adjacent(RemoveFieldPrefixes(s), NoFieldColon)
  {
    if s == [] {
    } else if IsFieldChar(s[0]) {
      var n := FieldRun(s);
      if n < |s| && s[n] == ':' {
        RemoveFieldPrefixesShape(s[n + 1..]);
      } else {
        RemoveFieldPrefixesShape(s[n..]);
        FieldRunAdjacent(s[..n]);
        AdjacentAppend(s[..n], RemoveFieldPrefixes(s[n..]), NoFieldColon);
      }
    } else {
      RemoveFieldPrefixesShape(s[1..]);
      AdjacentCons(s[0], RemoveFieldPrefixes(s[1..]), NoFieldColon);
    }
  }

  /** A string is left alone exactly when no field character in it is followed by `:`. */
  lemma {:induction false} RemoveFieldPrefixesFixed(s: string)
    decreases |s|
    ensures RemoveFieldPrefixes(s) == s <==> Adjacent(s, NoFieldColon)
  {
    RemoveFieldPrefixesShape(s);
    if Adjacent(s, NoFieldColon) && s != [] {
      if IsFieldChar(s[0]) {
        var n := FieldRun(s);
        if n < |s| {
          assert Allows(NoFieldColon, s[n - 1], s[n]);
        }
        AdjacentSuffix(s, n, NoFieldColon);
        RemoveFieldPrefixesFixed(s[n..]);
        assert s == s[..n] + s[n..];
      } else {
        AdjacentSuffix(s, 1, NoFieldColon);
        RemoveFieldPrefixesFixed(s[1..]);
        assert s == [s[0]] + s[1..];
      }
    }
  }

  /** A field prefix holds no character other than field characters and `:`. */
  lemma PrefixCount(w: string, c: char)
    requires forall i :: 0 <= i < |w| - 1 ==> IsFieldChar(w[i])
    requires |w| > 0 ==> w[|w| - 1] == ':'
    ensures !IsFieldChar(c) && c != ':' ==> Count(w, c) == 0
  {
    if !IsFieldChar(c) && c != ':' {
      CountZero(w, c);
    }
  }

  /** Only field characters and `:` are removed. */
  lemma {:induction false} RemoveFieldPrefixesCount(s: string, c: char)
    decreases |s|
    ensures Count(RemoveFieldPrefixes(s), c) <= Count(s, c)
    ensures !IsFieldChar(c) && c != ':' ==> Count(RemoveFieldPrefixes(s), c) == Count(s, c)
  {
    if s == [] {
    } else if IsFieldChar(s[0]) {
      var n := FieldRun(s);
      if n < |s| && s[n] == ':' {
        RemoveFieldPrefixesCount(s[n + 1..], c);
        assert s == s[..n + 1] + s[n + 1..];
        CountAppend(s[..n + 1], s[n + 1..], c);
        PrefixCount(s[..n + 1], c);
      } else {
        RemoveFieldPrefixesCount(s[n..], c);
        assert s == s[..n] + s[n..];
        CountAppend(s[..n], s[n..], c);
        CountAppend(s[..n], RemoveFieldPrefixes(s[n..]), c);
      }
    } else {
      RemoveFieldPrefixesCount(s[1..], c);
      CountAppend([s[0]], RemoveFieldPrefixes(s[1..]), c);
    }
  }

  // ---------------------------------------------------------------------------
  // Removing hyphens that do not follow a space
  // ---------------------------------------------------------------------------

  /**
   * The filter of `preg_replace("/(?<! )-/", "", $s)` from a point where the
   * previous character was a space (`spaced`) or not. The lookbehind reads
   * the string as it was before the replacement, so each `-` is judged by its
   * original neighbour: `a--b` loses both.
   */
  function DropHyphensAfter(s: string, spaced: bool): (r: string)
    ensures |s| > 0 && s[0] != '-' ==> |r| > 0 && r[0] == s[0]
    ensures |r| <= |s|
  {
    if s == [] then []
    else (if s[0] == '-' && !spaced then [] else [s[0]]) + DropHyphensAfter(s[1..], s[0] == ' ')
  }

  /** `preg_replace("/(?<! )-/", "", $s)`, the string seen from its start. */
  function DropUnspacedHyphens(s: string): (r: string)
    ensures |s| > 0 && s[0] != '-' ==> |r| > 0 && r[0] == s[0]
  {
    DropHyphensAfter(s, false)
  }

  /** Every `-` left follows a space. */
  lemma {:induction false} DropHyphensShape(s: string, spaced: bool)
    ensures HyphensSpacedAfter(DropHyphensAfter(s, spaced), spaced)
  {
    if s != [] {
      DropHyphensShape(s[1..], s[0] == ' ');
      if !(s[0] == '-' && !spaced) {
        AdjacentCons(s[0], DropHyphensAfter(s[1..], s[0] == ' '), HyphenAfterSpace);
      }
    }
  }

  /** A string is left alone exactly when every `-` in it follows a space. */
  lemma {:induction false} DropHyphensFixed(s: string, spaced: bool)
    ensures DropHyphensAfter(s, spaced) == s <==> HyphensSpacedAfter(s, spaced)
  {
    DropHyphensShape(s, spaced);
    if HyphensSpacedAfter(s, spaced) && s != [] {
      if |s| >= 2 {
        assert Allows(HyphenAfterSpace, s[0], s[1]);
      }
      AdjacentSuffix(s, 1, HyphenAfterSpace);
      DropHyphensFixed(s[1..], s[0] == ' ');
      assert s == [s[0]] + s[1..];
    }
  }

  /** The number of `-` in `s` that come right after a space in `s`. */
  function SpacedHyphens(s: string): nat {
    if |s| < 2 then 0
    else (if s[0] == ' ' && s[1] == '-' then 1 else 0) + SpacedHyphens(s[1..])
  }

  /** Only `-` is removed, and exactly the `-` that follow a space are kept. */
  lemma {:induction false} DropHyphensCount(s: string, spaced: bool, c: char)
    ensures c != '-' ==> Count(DropHyphensAfter(s, spaced), c) == Count(s, c)
    ensures c == '-' ==> Count(DropHyphensAfter(s, spaced), c)
                         == (if spaced && |s| > 0 && s[0] == '-' then 1 else 0) + SpacedHyphens(s)
  {
    if s != [] {
      DropHyphensCount(s[1..], s[0] == ' ', c);
      CountAppend(if s[0] == '-' && !spaced then [] else [s[0]], DropHyphensAfter(s[1..], s[0] == ' '), c);
      if |s| >= 2 {
        assert s[1..][0] == s[1];
      }
    }
  }

  /** Each `-` counted by SpacedHyphens is a `-` of the string. */
  lemma {:induction false} SpacedHyphensBound(s: string)
    ensures SpacedHyphens(s) <= Count(s, '-')
    ensures |s| > 0 ==> SpacedHyphens(s) <= Count(s[1..], '-')
  {
    if |s| >= 2 {
      SpacedHyphensBound(s[1..]);
      assert s[1..][0] == s[1] && s[1..][1..] == s[2..];
    }
  }

  // ---------------------------------------------------------------------------
  // Removing whitespace after an operator
  // ---------------------------------------------------------------------------

  /** The length of the run of whitespace `s` starts with. */
  function SpaceRun(s: string): (n: nat)
    ensures n <= |s|
    ensures forall i :: 0 <= i < n ==> IsSpace(s[i])
    ensures n < |s| ==> !IsSpace(s[n])
  {
    if s != [] && IsSpace(s[0]) then 1 + SpaceRun(s[1..]) else 0
  }

  /**
   * `preg_replace("/([+-])\s+/", "", $s)`: an operator followed by whitespace
   * goes together with the whole whitespace run.
   */
  function DropOperatorGaps(s: string): (r: string)
    decreases |s|
    ensures |s| > 0 && !IsSpace(s[0]) ==> r == [] || !IsSpace(r[0])
    ensures |s| > 0 && !IsOperator(s[0]) ==> |r| > 0 && r[0] == s[0]
    ensures |r| <= |s|
  {
    if |s| >= 2 && IsOperator(s[0]) && IsSpace(s[1]) then
      DropOperatorGaps(s[1 + SpaceRun(s[1..])..])
    else if s == [] then
      []
    else
      [s[0]] + DropOperatorGaps(s[1..])
  }

  /** Afterwards no `+` or `-` is followed by whitespace. */
  lemma {:induction false} DropOperatorGapsShape(s: string)
    decreases |s|
    ensures Adjacent(DropOperatorGaps(s), NoOperatorGap)
  {
    if |s| >= 2 && IsOperator(s[0]) && IsSpace(s[1]) {
      DropOperatorGapsShape(s[1 + SpaceRun(s[1..])..]);
    } else if s != [] {
      DropOperatorGapsShape(s[1..]);
      AdjacentCons(s[0], DropOperatorGaps(s[1..]), NoOperatorGap);
    }
  }

  /** A string is left alone exactly when no operator in it is followed by whitespace. */
  lemma {:induction false} DropOperatorGapsFixed(s: string)
    decreases |s|
    ensures DropOperatorGaps(s) == s <==> Adjacent(s, NoOperatorGap)
  {
    DropOperatorGapsShape(s);
    if Adjacent(s, NoOperatorGap) && s != [] {
      if |s| >= 2 {
        assert Allows(NoOperatorGap, s[0], s[1]);
      }
      AdjacentSuffix(s, 1, NoOperatorGap);
      DropOperatorGapsFixed(s[1..]);
      assert s == [s[0]] + s[1..];
    }
  }

  /** Only operators and whitespace are removed. */
  lemma {:induction false} DropOperatorGapsCount(s: string, c: char)
    decreases |s|
    ensures Count(DropOperatorGaps(s), c) <= Count(s, c)
    ensures !IsOperator(c) && !IsSpace(c) ==> Count(DropOperatorGaps(s), c) == Count(s, c)
  {
    if |s| >= 2 && IsOperator(s[0]) && IsSpace(s[1]) {
      var n := 1 + SpaceRun(s[1..]);
      DropOperatorGapsCount(s[n..], c);
      assert s == s[..n] + s[n..];
      CountAppend(s[..n], s[n..], c);
      if !IsOperator(c) && !IsSpace(c) {
        forall i | 0 < i < n
          ensures s[i] != c
        {
          assert s[i] == s[1..][i - 1];
        }
        CountZero(s[..n], c);
      }
    } else if s != [] {
      DropOperatorGapsCount(s[1..], c);
      CountAppend([s[0]], DropOperatorGaps(s[1..]), c);
    }
  }

  // ---------------------------------------------------------------------------
  // Collapsing whitespace
  // ---------------------------------------------------------------------------

  /** `preg_replace("/\s{1,}/", " ", $s)`: each maximal run of whitespace becomes one space. */
  function CollapseWhitespace(s: string): (r: string)
    decreases |s|
    ensures |s| > 0 ==> |r| > 0 && r[0] == (if IsSpace(s[0]) then ' ' else s[0])
    ensures |r| <= |s|
  {
    if s == [] then []
    else if IsSpace(s[0]) then [' '] + CollapseWhitespace(s[SpaceRun(s)..])
    else [s[0]] + CollapseWhitespace(s[1..])
  }

  /** Afterwards the only whitespace is single spaces. */
  lemma {:induction false} CollapseWhitespaceShape(s: string)
    decreases |s|
    ensures SingleSpaced(CollapseWhitespace(s))
  {
    if s != [] {
      var x := if IsSpace(s[0]) then ' ' else s[0];
      var tail := if IsSpace(s[0]) then s[SpaceRun(s)..] else s[1..];
      var rest := CollapseWhitespace(tail);
      CollapseWhitespaceShape(tail);
      AdjacentCons(x, rest, NotBoth(' '));
      var r := [x] + rest;
      forall i | 0 < i < |r|
        ensures r[i] == rest[i - 1]
      {
      }
    }
  }

  /** A string is left alone exactly when it already is single-spaced. */
  lemma {:induction false} CollapseWhitespaceFixed(s: string)
    decreases |s|
    ensures CollapseWhitespace(s) == s <==> SingleSpaced(s)
  {
    CollapseWhitespaceShape(s);
    if SingleSpaced(s) && s != [] {
      if |s| >= 2 {
        assert Allows(NotBoth(' '), s[0], s[1]);
        assert IsSpace(s[1]) ==> s[1] == ' ';
      }
      AdjacentSuffix(s, 1, NotBoth(' '));
      assert OnlySpaces(s[1..]) by {
        forall i | 0 <= i < |s| - 1
          ensures IsSpace(s[1..][i]) ==> s[1..][i] == ' '
        {
          assert s[1..][i] == s[i + 1];
        }
      }
      CollapseWhitespaceFixed(s[1..]);
      assert s == [s[0]] + s[1..];
    }
  }

  /** Collapsing whitespace puts no whitespace after an operator. */
  lemma {:induction false} CollapseKeepsOperatorGapFree(s: string)
    decreases |s|
    ensures Adjacent(s, NoOperatorGap) ==> Adjacent(CollapseWhitespace(s), NoOperatorGap)
  {
    if s != [] && Adjacent(s, NoOperatorGap) {
      if IsSpace(s[0]) {
        var n := SpaceRun(s);
        AdjacentSuffix(s, n, NoOperatorGap);
        CollapseKeepsOperatorGapFree(s[n..]);
        AdjacentCons(' ', CollapseWhitespace(s[n..]), NoOperatorGap);
      } else {
        if |s| >= 2 {
          assert Allows(NoOperatorGap, s[0], s[1]);
        }
        AdjacentSuffix(s, 1, NoOperatorGap);
        CollapseKeepsOperatorGapFree(s[1..]);
        AdjacentCons(s[0], CollapseWhitespace(s[1..]), NoOperatorGap);
      }
    }
  }

  /** Every character other than whitespace keeps its number of occurrences. */
  lemma {:induction false} CollapseWhitespaceCount(s: string, c: char)
    decreases |s|
    ensures !IsSpace(c) ==> Count(CollapseWhitespace(s), c) == Count(s, c)
  {
    if s != [] && !IsSpace(c) {
      if IsSpace(s[0]) {
        var n := SpaceRun(s);
        CollapseWhitespaceCount(s[n..], c);
        assert s == s[..n] + s[n..];
        CountAppend(s[..n], s[n..], c);
        CountAppend([' '], CollapseWhitespace(s[n..]), c);
        CountZero(s[..n], c);
      } else {
        CollapseWhitespaceCount(s[1..], c);
        CountAppend([s[0]], CollapseWhitespace(s[1..]), c);
      }
    }
  }

  // ---------------------------------------------------------------------------
  // Balancing quotes
  // ---------------------------------------------------------------------------

  /** Lines 291-292: a string with an odd number of `"` gets one more at the end. */
  function BalanceQuotes(s: string): (r: string)
    ensures Count(r, '"') % 2 == 0
    ensures r == s || r == s + "\""
    ensures r == s <==> Count(s, '"') % 2 == 0
  {
    CountAppend(s, "\"", '"');
    if Count(s, '"') % 2 == 1 then s + "\"" else s
  }

  // ---------------------------------------------------------------------------
  // The pipeline
  // ---------------------------------------------------------------------------

  /** Lines 263-265: trim `-`, `+` and spaces from the ends, then put one space in front. */
  function Prepare(s: string): (r: string)
    ensures |r| > 0 && r[0] == ' '
  {
    " " + Trim(s, EdgeChars)
  }

  /** Lines 267-275: delete wildcards, range braces, groupings, boosts and negations. */
  function DeleteSingles(s: string): (r: string)
    ensures |s| > 0 && s[0] !in Metachars ==> |r| > 0 && r[0] == s[0]
  {
    var noWildcards := DeleteChars(s, Wildcards);
    var noRanges := DeleteChars(noWildcards, RangeBraces);
    var noGroups := DeleteChars(noRanges, Groupings);
    var noBoost := DeleteChars(noGroups, Boost);
    DeleteChars(noBoost, Negation)
  }

  /** Lines 267-279: delete the single metacharacters, then the `&&` and `||` pairs. */
  function Delete(s: string): (r: string)
    ensures |s| > 0 && s[0] !in Metachars && s[0] != '&' && s[0] != '|' ==> |r| > 0 && r[0] == s[0]
  {
    RemovePairs(RemovePairs(DeleteSingles(s), '&'), '|')
  }

  /** Lines 281-287: field prefixes, unspaced hyphens, operator gaps, then whitespace runs. */
  function Rewrite(s: string): (r: string)
    ensures |s| > 0 && s[0] == ' ' ==> |r| > 0 && r[0] == ' '
  {
    CollapseWhitespace(DropOperatorGaps(DropUnspacedHyphens(RemoveFieldPrefixes(s))))
  }

  /** Lines 289-294: trim the ends again, balance the quotes, and apply PHP's default trim. */
  function Finish(s: string): (r: string)
    ensures r == [] || (r[0] !in DefaultTrim && r[|r| - 1] !in DefaultTrim)
  {
    Trim(BalanceQuotes(Trim(s, EdgeChars)), DefaultTrim)
  }

  /**
   * ElasticSearch::filterKeywords. `stripTags` stands for PHP's strip_tags,
   * which is not part of this model.
   */
  function FilterKeywords(stripTags: string -> string, keywords: string): (r: string)
    ensures r == [] || (r[0] !in DefaultTrim && r[|r| - 1] !in DefaultTrim)
  {
    Finish(Rewrite(Delete(Prepare(stripTags(keywords)))))
  }

  // ---------------------------------------------------------------------------
  // What the pipeline keeps
  // ---------------------------------------------------------------------------

  /** A character no step of the pipeline removes or adds. */
  predicate Inert(c: char) {
    && !IsFieldChar(c) && c != ':' && !IsSpace(c) && c !in EdgeChars && c !in Metachars
    && c != '&' && c != '|' && c != '\0' && c != '"'
  }

  lemma PrepareCount(s: string, c: char)
    ensures c != ' ' ==> Count(Prepare(s), c) <= Count(s, c)
    ensures c !in EdgeChars ==> Count(Prepare(s), c) == Count(s, c)
  {
    CountAppend(" ", Trim(s, EdgeChars), c);
    TrimCount(s, EdgeChars, c);
  }

  lemma DeleteCount(s: string, c: char)
    ensures Count(Delete(s), c) <= Count(s, c)
    ensures c in Metachars ==> Count(Delete(s), c) == 0
    ensures c !in Metachars && c != '&' && c != '|' ==> Count(Delete(s), c) == Count(s, c)
  {
    var noWildcards := DeleteChars(s, Wildcards);
    var noRanges := DeleteChars(noWildcards, RangeBraces);
    var noGroups := DeleteChars(noRanges, Groupings);
    var noBoost := DeleteChars(noGroups, Boost);
    var noNot := DeleteSingles(s);
    DeleteCharsCount(s, Wildcards, c);
    DeleteCharsCount(noWildcards, RangeBraces, c);
    DeleteCharsCount(noRanges, Groupings, c);
    DeleteCharsCount(noGroups, Boost, c);
    DeleteCharsCount(noBoost, Negation, c);
    RemovePairsCount(noNot, '&', c);
    RemovePairsCount(RemovePairs(noNot, '&'), '|', c);
  }

  lemma RewriteCount(s: string, c: char)
    ensures c != ' ' ==> Count(Rewrite(s), c) <= Count(s, c)
  {
    var noFields := RemoveFieldPrefixes(s);
    var noHyphens := DropUnspacedHyphens(noFields);
    var noGaps := DropOperatorGaps(noHyphens);
    RemoveFieldPrefixesCount(s, c);
    DropHyphensCount(noFields, false, c);
    SpacedHyphensBound(noFields);
    DropOperatorGapsCount(noHyphens, c);
    CollapseWhitespaceCount(noGaps, c);
    if IsSpace(c) && c != ' ' {
      CollapseWhitespaceShape(noGaps);
      CountZero(Rewrite(s), c);
    }
  }

  lemma RewriteKeeps(s: string, c: char)
    requires Inert(c)
    ensures Count(Rewrite(s), c) == Count(s, c)
  {
    var noFields := RemoveFieldPrefixes(s);
    var noHyphens := DropUnspacedHyphens(noFields);
    RemoveFieldPrefixesCount(s, c);
    DropHyphensCount(noFields, false, c);
    DropOperatorGapsCount(noHyphens, c);
    CollapseWhitespaceCount(DropOperatorGaps(noHyphens), c);
  }

  lemma FinishCount(s: string, c: char)
    ensures c != '"' ==> Count(Finish(s), c) <= Count(s, c)
    ensures Count(Finish(s), '"') % 2 == 0
  {
    var t := Trim(s, EdgeChars);
    var b := BalanceQuotes(t);
    TrimCount(s, EdgeChars, c);
    CountAppend(t, "\"", c);
    TrimCount(b, DefaultTrim, c);
    TrimCount(b, DefaultTrim, '"');
  }

  lemma FinishKeeps(s: string, c: char)
    requires Inert(c)
    ensures Count(Finish(s), c) == Count(s, c)
  {
    var t := Trim(s, EdgeChars);
    TrimCount(s, EdgeChars, c);
    CountAppend(t, "\"", c);
    TrimCount(BalanceQuotes(t), DefaultTrim, c);
  }

  /** Text without metacharacters passes the single-character deletions unchanged. */
  lemma DeleteSinglesUnchanged(s: string)
    requires forall i :: 0 <= i < |s| ==> s[i] !in Metachars
    ensures DeleteSingles(s) == s
  {
    DeleteCharsFixed(s, Wildcards);
    DeleteCharsFixed(s, RangeBraces);
    DeleteCharsFixed(s, Groupings);
    DeleteCharsFixed(s, Boost);
    DeleteCharsFixed(s, Negation);
  }

  /** Text without metacharacters, `&` or `|` passes the deletions unchanged. */
  lemma DeleteUnchanged(s: string)
    requires forall i :: 0 <= i < |s| ==> s[i] !in Metachars && s[i] != '&' && s[i] != '|'
    ensures Delete(s) == s
  {
    DeleteSinglesUnchanged(s);
    RemovePairsFixed(s, '&');
    RemovePairsFixed(s, '|');
  }

  /** The text the final stage receives. */
  function Rewritten(stripTags: string -> string, keywords: string): string {
    Rewrite(Delete(Prepare(stripTags(keywords))))
  }

  lemma RewrittenCount(stripTags: string -> string, keywords: string, c: char)
    ensures c in Metachars ==> Count(Rewritten(stripTags, keywords), c) == 0
    ensures c != ' ' ==> Count(Rewritten(stripTags, keywords), c) <= Count(stripTags(keywords), c)
  {
    var p := Prepare(stripTags(keywords));
    PrepareCount(stripTags(keywords), c);
    DeleteCount(p, c);
    RewriteCount(Delete(p), c);
  }

  lemma MetacharIsNotQuote(c: char)
    requires c in Metachars
    ensures c != '"'
  {
  }

  /** A character other than `"` that the final stage receives none of, it does not output. */
  lemma FinishAbsent(w: string, c: char)
    requires c != '"' && Count(w, c) == 0
    ensures c !in Finish(w)
  {
    FinishCount(w, c);
    CountZero(Finish(w), c);
  }

  /** No wildcard, range brace, grouping, boost or negation character survives the pipeline. */
  lemma FilterKeywordsMetachars(stripTags: string -> string, keywords: string, c: char)
    requires c in Metachars
    ensures c !in FilterKeywords(stripTags, keywords)
  {
    var w := Rewritten(stripTags, keywords);
    RewrittenCount(stripTags, keywords, c);
    MetacharIsNotQuote(c);
    FinishAbsent(w, c);
  }

  /** No character other than the space and `"` is added by the pipeline. */
  lemma FilterKeywordsCount(stripTags: string -> string, keywords: string, c: char)
    ensures c != ' ' && c != '"' ==>
              Count(FilterKeywords(stripTags, keywords), c) <= Count(stripTags(keywords), c)
  {
    RewrittenCount(stripTags, keywords, c);
    FinishCount(Rewritten(stripTags, keywords), c);
  }

  /** A character no step touches keeps its number of occurrences. */
  lemma FilterKeywordsKeeps(stripTags: string -> string, keywords: string, c: char)
    requires Inert(c)
    ensures Count(FilterKeywords(stripTags, keywords), c) == Count(stripTags(keywords), c)
  {
    var s := stripTags(keywords);
    var p := Prepare(s);
    PrepareCount(s, c);
    DeleteCount(p, c);
    RewriteKeeps(Delete(p), c);
    FinishKeeps(Rewritten(stripTags, keywords), c);
  }

  /** The output always holds an even number of `"`. */
  lemma FilterKeywordsQuotes(stripTags: string -> string, keywords: string)
    ensures Count(FilterKeywords(stripTags, keywords), '"') % 2 == 0
  {
    FinishCount(Rewrite(Delete(Prepare(stripTags(keywords)))), '"');
  }

  // ---------------------------------------------------------------------------
  // The shape of the output
  // ---------------------------------------------------------------------------

  /** Single spaces only, and never whitespace right after an operator. */
  ghost predicate WellSpaced(s: string) {
    SingleSpaced(s) && Adjacent(s, NoOperatorGap)
  }

  lemma RewriteShape(s: string)
    ensures WellSpaced(Rewrite(s))
  {
    var noGaps := DropOperatorGaps(DropUnspacedHyphens(RemoveFieldPrefixes(s)));
    DropOperatorGapsShape(DropUnspacedHyphens(RemoveFieldPrefixes(s)));
    CollapseWhitespaceShape(noGaps);
    CollapseKeepsOperatorGapFree(noGaps);
  }

  lemma SliceKeepsShape(s: string, lo: int, hi: int)
    requires 0 <= lo <= hi <= |s| && WellSpaced(s)
    ensures WellSpaced(s[lo..hi])
  {
    AdjacentSlice(s, lo, hi, NotBoth(' '));
    AdjacentSlice(s, lo, hi, NoOperatorGap);
    assert forall i :: 0 <= i < hi - lo ==> s[lo..hi][i] == s[lo + i];
  }

  lemma TrimKeepsShape(s: string, cs: set<char>)
    requires WellSpaced(s)
    ensures WellSpaced(Trim(s, cs))
  {
    TrimSlice(s, cs);
    var i, j :| 0 <= i <= j <= |s| && Trim(s, cs) == s[i..j];
    SliceKeepsShape(s, i, j);
  }

  lemma BalanceKeepsShape(s: string)
    requires WellSpaced(s)
    ensures WellSpaced(BalanceQuotes(s))
  {
    if BalanceQuotes(s) != s {
      AdjacentAppend(s, "\"", NotBoth(' '));
      AdjacentAppend(s, "\"", NoOperatorGap);
      var r := s + "\"";
      assert forall i :: 0 <= i < |s| ==> r[i] == s[i];
    }
  }

  /**
   * The output's whitespace is single spaces, none at either end, and no
   * operator is followed by whitespace.
   */
  lemma FilterKeywordsSpacing(stripTags: string -> string, keywords: string)
    ensures WellSpaced(FilterKeywords(stripTags, keywords))
    ensures var r := FilterKeywords(stripTags, keywords); r == [] || (r[0] != ' ' && r[|r| - 1] != ' ')
  {
    var w := Rewrite(Delete(Prepare(stripTags(keywords))));
    RewriteShape(Delete(Prepare(stripTags(keywords))));
    TrimKeepsShape(w, EdgeChars);
    BalanceKeepsShape(Trim(w, EdgeChars));
    TrimKeepsShape(BalanceQuotes(Trim(w, EdgeChars)), DefaultTrim);
  }

  /** The final stage of a well-spaced text without NUL never starts with an operator. */
  lemma FinishFront(w: string)
    requires WellSpaced(w) && '\0' !in w
    ensures Finish(w) == [] || !IsOperator(Finish(w)[0])
  {
    var t := Trim(w, EdgeChars);
    var b := BalanceQuotes(t);
    if t != [] {
      TrimKeepsShape(w, EdgeChars);
      TrimCount(w, EdgeChars, '\0');
      CountZero(w, '\0');
      CountZero(t, '\0');
      assert b[0] == t[0];
      assert t[0] !in DefaultTrim;
      TrimSlice(b, DefaultTrim);
      var i, j :| 0 <= i <= j <= |b| && Trim(b, DefaultTrim) == b[i..j]
                  && (forall k :: 0 <= k < i ==> b[k] in DefaultTrim);
      assert i == 0;
    }
  }

  /** When the input holds no NUL, the output does not start with `+` or `-`. */
  lemma FilterKeywordsFront(stripTags: string -> string, keywords: string)
    requires '\0' !in stripTags(keywords)
    ensures var r := FilterKeywords(stripTags, keywords); r == [] || !IsOperator(r[0])
  {
    var w := Rewritten(stripTags, keywords);
    RewrittenCount(stripTags, keywords, '\0');
    CountZero(stripTags(keywords), '\0');
    CountZero(w, '\0');
    RewriteShape(Delete(Prepare(stripTags(keywords))));
    FinishFront(w);
  }

  /**
   * The final stage undoes the space put in front by the first stage: text
   * whose ends are neither trimmed characters nor whitespace, and whose quotes
   * are balanced, comes back unchanged.
   */
  lemma FinishPrepared(t: string)
    requires t != [] && t[0] !in EdgeChars + DefaultTrim && t[|t| - 1] !in EdgeChars + DefaultTrim
    requires Count(t, '"') % 2 == 0
    ensures Finish(" " + t) == t
  {
    var s := " " + t;
    assert SkipForward(s, EdgeChars, 1) == 1;
    assert SkipBackward(s, EdgeChars, 1, |s|) == |s|;
    assert s[1..|s|] == t;
  }
}
