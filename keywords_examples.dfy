/**
 * Worked examples of ElasticSearch::filterKeywords on input without markup,
 * each stage evaluated in a lemma of its own (the deletion and final
 * stages shared by most examples are evaluated together).
 */
module KeywordExamples {
  import opened Keywords

  /** strip_tags on text that holds no markup. */
  function NoMarkup(s: string): string {
    s
  }

  /** The rewriting stage from the value of each of its steps. */
  lemma RewriteSteps(s: string, noFields: string, noHyphens: string, noGaps: string, r: string)
    requires RemoveFieldPrefixes(s) == noFields && DropUnspacedHyphens(noFields) == noHyphens
    requires DropOperatorGaps(noHyphens) == noGaps && CollapseWhitespace(noGaps) == r
    ensures Rewrite(s) == r
  {
  }

  /** The pipeline's output from the value of each of its stages. */
  lemma FilterKeywordsStages(stripTags: string -> string, keywords: string,
                             prepared: string, deleted: string, rewritten: string, r: string)
    requires Prepare(stripTags(keywords)) == prepared && Delete(prepared) == deleted
    requires Rewrite(deleted) == rewritten && Finish(rewritten) == r
    ensures FilterKeywords(stripTags, keywords) == r
  {
  }

  /** A character the deletion stage keeps. */
  predicate Kept(c: char) {
    c !in Metachars && c != '&' && c != '|'
  }

  /** ` xy` has nothing for the deletion stage to remove. */
  lemma DeletedNoneOfTwo(x: char, y: char)
    requires Kept(x) && Kept(y)
    ensures Delete([' ', x, y]) == [' ', x, y]
  {
    DeleteUnchanged([' ', x, y]);
  }

  /** ` xyz` has nothing for the deletion stage to remove. */
  lemma DeletedNoneOfThree(x: char, y: char, z: char)
    requires Kept(x) && Kept(y) && Kept(z)
    ensures Delete([' ', x, y, z]) == [' ', x, y, z]
  {
    DeleteUnchanged([' ', x, y, z]);
  }

  /** ` wxyz` has nothing for the deletion stage to remove. */
  lemma DeletedNoneOfFour(w: char, x: char, y: char, z: char)
    requires Kept(w) && Kept(x) && Kept(y) && Kept(z)
    ensures Delete([' ', w, x, y, z]) == [' ', w, x, y, z]
  {
    DeleteUnchanged([' ', w, x, y, z]);
  }

  /** ` vwxyz` has nothing for the deletion stage to remove. */
  lemma DeletedNoneOfFive(v: char, w: char, x: char, y: char, z: char)
    requires Kept(v) && Kept(w) && Kept(x) && Kept(y) && Kept(z)
    ensures Delete([' ', v, w, x, y, z]) == [' ', v, w, x, y, z]
  {
    DeleteUnchanged([' ', v, w, x, y, z]);
  }

  /** The examples without metacharacters, `&` or `|` pass the deletion stage unchanged. */
  lemma ExamplesDeleted()
    ensures Delete(" t: a") == " t: a"
    ensures Delete(" a-b") == " a-b"
    ensures Delete(" \"a") == " \"a"
    ensures Delete(" a -b") == " a -b"
    ensures Delete(" a + b") == " a + b"
    ensures Delete(" a+ :b") == " a+ :b"
  {
    DeletedNoneOfFour('t', ':', ' ', 'a');
    DeletedNoneOfThree('a', '-', 'b');
    DeletedNoneOfTwo('"', 'a');
    DeletedNoneOfFour('a', ' ', '-', 'b');
    DeletedNoneOfFive('a', ' ', '+', ' ', 'b');
    DeletedNoneOfFive('a', '+', ' ', ':', 'b');
  }

  /** A character that no trim removes and that is not a quote. */
  predicate Word(c: char) {
    c !in EdgeChars + DefaultTrim && c != '"'
  }

  /** A character that is not a quote. */
  predicate Unquoted(c: char) {
    c != '"'
  }

  /** ` x` loses its leading space in the final stage. */
  lemma FinishedOne(x: char)
    requires Word(x)
    ensures Finish([' ', x]) == [x]
  {
    FinishPrepared([x]);
    assert [' '] + [x] == [' ', x];
  }

  /** ` xy` loses its leading space in the final stage. */
  lemma FinishedTwo(x: char, y: char)
    requires Word(x) && Word(y)
    ensures Finish([' ', x, y]) == [x, y]
  {
    CountZero([x, y], '"');
    FinishPrepared([x, y]);
    assert [' '] + [x, y] == [' ', x, y];
  }

  /** ` xmy` loses its leading space in the final stage. */
  lemma FinishedThree(x: char, m: char, y: char)
    requires Word(x) && Unquoted(m) && Word(y)
    ensures Finish([' ', x, m, y]) == [x, m, y]
  {
    CountZero([x, m, y], '"');
    FinishPrepared([x, m, y]);
    assert [' '] + [x, m, y] == [' ', x, m, y];
  }

  /** ` xmny` loses its leading space in the final stage. */
  lemma FinishedFour(x: char, m: char, n: char, y: char)
    requires Word(x) && Unquoted(m) && Unquoted(n) && Word(y)
    ensures Finish([' ', x, m, n, y]) == [x, m, n, y]
  {
    CountZero([x, m, n, y], '"');
    FinishPrepared([x, m, n, y]);
    assert [' '] + [x, m, n, y] == [' ', x, m, n, y];
  }

  /** The final stage of each example: the leading space is removed again. */
  lemma ExamplesFinished()
    ensures Finish(" a") == "a"
    ensures Finish(" ab") == "ab"
    ensures Finish(" &&") == "&&"
    ensures Finish(" a -b") == "a -b"
    ensures Finish(" a b") == "a b"
    ensures Finish(" a:b") == "a:b"
  {
    FinishedOne('a');
    FinishedTwo('a', 'b');
    FinishedTwo('&', '&');
    FinishedFour('a', ' ', '-', 'b');
    FinishedThree('a', ' ', 'b');
    FinishedThree('a', ':', 'b');
  }

  // `t: a` becomes `a`: a field prefix goes, with the space after it.

  lemma FieldPrepared()
    ensures Prepare(NoMarkup("t: a")) == " t: a"
  {
  }

  lemma FieldRemoved()
    ensures RemoveFieldPrefixes(" t: a") == "  a"
  {
    assert RemoveFieldPrefixes("a") == "a";
  }

  lemma FieldHyphens()
    ensures DropUnspacedHyphens("  a") == "  a"
  {
  }

  lemma FieldGaps()
    ensures DropOperatorGaps("  a") == "  a"
  {
  }

  lemma FieldCollapsed()
    ensures CollapseWhitespace("  a") == " a"
  {
    assert CollapseWhitespace("a") == "a";
  }

  lemma ExampleField()
    ensures FilterKeywords(NoMarkup, "t: a") == "a"
  {
    FieldPrepared();
    ExamplesDeleted();
    FieldRemoved();
    FieldHyphens();
    FieldGaps();
    FieldCollapsed();
    RewriteSteps(" t: a", "  a", "  a", "  a", " a");
    ExamplesFinished();
    FilterKeywordsStages(NoMarkup, "t: a", " t: a", " t: a", " a", "a");
  }

  // `a-b` becomes `ab`: a hyphen inside a word is removed.

  lemma InnerHyphenPrepared()
    ensures Prepare(NoMarkup("a-b")) == " a-b"
  {
  }

  lemma InnerHyphenFields()
    ensures RemoveFieldPrefixes(" a-b") == " a-b"
  {
    assert FieldRun("a-b") == 3;
  }

  /** A hyphen whose left neighbour is not a space is dropped. */
  lemma InnerHyphenDropped()
    ensures DropUnspacedHyphens(" a-b") == " ab"
    ensures DropUnspacedHyphens(" &-&") == " &&"
  {
    assert DropHyphensAfter("-b", false) == "b";
    assert DropHyphensAfter("-&", false) == "&";
  }

  lemma InnerHyphenGaps()
    ensures DropOperatorGaps(" ab") == " ab"
  {
  }

  lemma InnerHyphenCollapsed()
    ensures CollapseWhitespace(" ab") == " ab"
  {
  }

  lemma ExampleInnerHyphen()
    ensures FilterKeywords(NoMarkup, "a-b") == "ab"
  {
    InnerHyphenPrepared();
    ExamplesDeleted();
    InnerHyphenFields();
    InnerHyphenDropped();
    InnerHyphenGaps();
    InnerHyphenCollapsed();
    RewriteSteps(" a-b", " a-b", " ab", " ab", " ab");
    ExamplesFinished();
    FilterKeywordsStages(NoMarkup, "a-b", " a-b", " a-b", " ab", "ab");
  }

  // `"a` becomes `"a"`: an unbalanced quote is closed at the end.

  lemma QuotePrepared()
    ensures Prepare(NoMarkup("\"a")) == " \"a"
  {
  }

  lemma QuoteRewritten()
    ensures Rewrite(" \"a") == " \"a"
  {
  }

  lemma QuoteTrimmed()
    ensures Trim(" \"a", EdgeChars) == "\"a"
  {
    assert SkipForward(" \"a", EdgeChars, 1) == 1;
  }

  lemma QuoteBalanced()
    ensures BalanceQuotes("\"a") == "\"a\""
  {
    assert Count("\"a", '"') == 1;
  }

  lemma QuoteFinished()
    ensures Finish(" \"a") == "\"a\""
  {
    QuoteTrimmed();
    QuoteBalanced();
    assert Trim("\"a\"", DefaultTrim) == "\"a\"";
  }

  lemma ExampleQuote()
    ensures FilterKeywords(NoMarkup, "\"a") == "\"a\""
  {
    QuotePrepared();
    ExamplesDeleted();
    QuoteRewritten();
    QuoteFinished();
    FilterKeywordsStages(NoMarkup, "\"a", " \"a", " \"a", " \"a", "\"a\"");
  }

  // `&-&` becomes `&&`, and `&&` becomes the empty string.

  lemma AmpersandsPrepared()
    ensures Prepare(NoMarkup("&-&")) == " &-&"
  {
  }

  lemma AmpersandsDeleted()
    ensures Delete(" &-&") == " &-&"
  {
    DeleteSinglesUnchanged(" &-&");
  }

  lemma AmpersandsFields()
    ensures RemoveFieldPrefixes(" &-&") == " &-&"
  {
    assert FieldRun("-&") == 1;
  }

  lemma AmpersandsGaps()
    ensures DropOperatorGaps(" &&") == " &&"
  {
  }

  lemma AmpersandsCollapsed()
    ensures CollapseWhitespace(" &&") == " &&"
  {
  }

  lemma ExampleAmpersands()
    ensures FilterKeywords(NoMarkup, "&-&") == "&&"
  {
    AmpersandsPrepared();
    AmpersandsDeleted();
    AmpersandsFields();
    InnerHyphenDropped();
    AmpersandsGaps();
    AmpersandsCollapsed();
    RewriteSteps(" &-&", " &-&", " &&", " &&", " &&");
    ExamplesFinished();
    FilterKeywordsStages(NoMarkup, "&-&", " &-&", " &-&", " &&", "&&");
  }

  lemma DoubleAmpersandPrepared()
    ensures Prepare(NoMarkup("&&")) == " &&"
  {
  }

  lemma DoubleAmpersandDeleted()
    ensures Delete(" &&") == " "
  {
    DeleteSinglesUnchanged(" &&");
    assert RemovePairs(" &&", '&') == " ";
  }

  lemma DoubleAmpersandRest()
    ensures Rewrite(" ") == " "
    ensures Finish(" ") == ""
  {
  }

  lemma ExampleDoubleAmpersand()
    ensures FilterKeywords(NoMarkup, "&&") == ""
  {
    DoubleAmpersandPrepared();
    DoubleAmpersandDeleted();
    DoubleAmpersandRest();
    FilterKeywordsStages(NoMarkup, "&&", " &&", " ", " ", "");
  }

  // The empty string stays empty.

  lemma EmptyPrepared()
    ensures Prepare("") == " "
  {
  }

  lemma EmptyStages()
    ensures Prepare("") == " " && Delete(" ") == " "
    ensures Rewrite(" ") == " " && Finish(" ") == ""
  {
    EmptyPrepared();
    DeleteUnchanged(" ");
    DoubleAmpersandRest();
  }

  lemma ExampleEmpty(stripTags: string -> string)
    requires stripTags("") == ""
    ensures FilterKeywords(stripTags, "") == ""
  {
    EmptyStages();
    FilterKeywordsStages(stripTags, "", " ", " ", " ", "");
  }

  // `***` becomes the empty string: wildcards are deleted.

  lemma StarsPrepared()
    ensures Prepare(NoMarkup("***")) == " ***"
  {
  }

  lemma StarsWildcards()
    ensures DeleteChars(" ***", Wildcards) == " "
  {
    assert DeleteChars("***", Wildcards) == "";
  }

  /** Two strings that agree once their wildcards are gone agree after all deletions. */
  lemma SameAfterWildcards(a: string, b: string)
    requires DeleteChars(a, Wildcards) == DeleteChars(b, Wildcards)
    ensures Delete(a) == Delete(b)
  {
  }

  lemma StarsDeleted()
    ensures Delete(" ***") == " "
  {
    StarsWildcards();
    DeleteCharsFixed(" ", Wildcards);
    SameAfterWildcards(" ***", " ");
    DeleteUnchanged(" ");
  }

  lemma ExampleStars()
    ensures FilterKeywords(NoMarkup, "***") == ""
  {
    StarsPrepared();
    StarsDeleted();
    EmptyStages();
    FilterKeywordsStages(NoMarkup, "***", " ***", " ", " ", "");
  }

  // `a -b` is kept as it is: a hyphen after a space is a negation.

  lemma NegationPrepared()
    ensures Prepare(NoMarkup("a -b")) == " a -b"
  {
  }

  lemma NegationFields()
    ensures RemoveFieldPrefixes(" a -b") == " a -b"
  {
    assert FieldRun("-b") == 2;
    assert FieldRun("a -b") == 1;
  }

  lemma NegationHyphens()
    ensures DropUnspacedHyphens(" a -b") == " a -b"
  {
    assert DropHyphensAfter("-b", true) == "-b";
  }

  /** ` x -y` has no operator gap. */
  lemma NegationKept(x: char, op: char, y: char)
    requires Plain(x) && IsOperator(op) && Plain(y)
    ensures DropOperatorGaps([' ', x, ' ', op, y]) == [' ', x, ' ', op, y]
  {
    GapKeep(y, []);
    GapKeep(op, [y]);
    assert [op] + [y] == [op, y];
    GapKeep(' ', [op, y]);
    assert [' '] + [op, y] == [' ', op, y];
    GapKeep(x, [' ', op, y]);
    assert [x] + [' ', op, y] == [x, ' ', op, y];
    GapKeep(' ', [x, ' ', op, y]);
    assert [' '] + [x, ' ', op, y] == [' ', x, ' ', op, y];
  }

  lemma NegationGaps()
    ensures DropOperatorGaps(" a -b") == " a -b"
  {
    NegationKept('a', '-', 'b');
  }

  lemma NegationCollapsed()
    ensures CollapseWhitespace(" a -b") == " a -b"
  {
    assert CollapseWhitespace("b") == "b";
    assert CollapseWhitespace("-b") == "-b";
    assert SpaceRun(" -b") == 1;
    assert CollapseWhitespace(" -b") == " -b";
    assert CollapseWhitespace("a -b") == "a -b";
    assert SpaceRun(" a -b") == 1;
  }

  lemma ExampleNegation()
    ensures FilterKeywords(NoMarkup, "a -b") == "a -b"
  {
    NegationPrepared();
    ExamplesDeleted();
    NegationFields();
    NegationHyphens();
    NegationGaps();
    NegationCollapsed();
    RewriteSteps(" a -b", " a -b", " a -b", " a -b", " a -b");
    ExamplesFinished();
    FilterKeywordsStages(NoMarkup, "a -b", " a -b", " a -b", " a -b", "a -b");
  }

  // `a + b` becomes `a b`: an operator followed by a space goes with the space.

  lemma GapPrepared()
    ensures Prepare(NoMarkup("a + b")) == " a + b"
  {
  }

  lemma GapFields()
    ensures RemoveFieldPrefixes(" a + b") == " a + b"
  {
    assert FieldRun("a + b") == 1;
  }

  lemma GapHyphens()
    ensures DropUnspacedHyphens(" a + b") == " a + b"
  {
    assert DropHyphensAfter("b", true) == "b";
    assert DropHyphensAfter(" b", false) == " b";
    assert DropHyphensAfter("+ b", true) == "+ b";
    assert DropHyphensAfter(" + b", false) == " + b";
    assert DropHyphensAfter("a + b", true) == "a + b";
  }

  /** A character not starting an operator gap is kept. */
  lemma GapKeep(c: char, rest: string)
    requires !(IsOperator(c) && rest != [] && IsSpace(rest[0]))
    ensures DropOperatorGaps([c] + rest) == [c] + DropOperatorGaps(rest)
  {
    assert ([c] + rest)[1..] == rest;
  }

  /** An operator followed by one whitespace character and then no more whitespace goes with it. */
  lemma GapDrop(op: char, space: char, rest: string)
    requires IsOperator(op) && IsSpace(space) && (rest == [] || !IsSpace(rest[0]))
    ensures DropOperatorGaps([op, space] + rest) == DropOperatorGaps(rest)
  {
    var s := [op, space] + rest;
    assert s[1..] == [space] + rest;
    assert SpaceRun(s[1..]) == 1 by {
      assert s[1..][1..] == rest;
    }
    assert s[2..] == rest;
  }

  /** Plain characters that start no operator gap. */
  predicate Plain(c: char) {
    !IsOperator(c) && !IsSpace(c)
  }

  /** ` x + y` loses its operator gap. */
  lemma SpacedOperatorDropped(x: char, op: char, y: char)
    requires Plain(x) && IsOperator(op) && Plain(y)
    ensures DropOperatorGaps([' ', x, ' ', op, ' ', y]) == [' ', x, ' ', y]
  {
    GapKeep(y, []);
    GapDrop(op, ' ', [y]);
    assert [op, ' '] + [y] == [op, ' ', y];
    GapKeep(' ', [op, ' ', y]);
    assert [' '] + [op, ' ', y] == [' ', op, ' ', y];
    GapKeep(x, [' ', op, ' ', y]);
    assert [x] + [' ', op, ' ', y] == [x, ' ', op, ' ', y];
    GapKeep(' ', [x, ' ', op, ' ', y]);
    assert [' '] + [x, ' ', op, ' ', y] == [' ', x, ' ', op, ' ', y];
  }

  lemma GapDropped()
    ensures DropOperatorGaps(" a + b") == " a b"
  {
    SpacedOperatorDropped('a', '+', 'b');
  }

  lemma GapCollapsed()
    ensures CollapseWhitespace(" a b") == " a b"
  {
  }

  lemma ExampleGap()
    ensures FilterKeywords(NoMarkup, "a + b") == "a b"
  {
    GapPrepared();
    ExamplesDeleted();
    GapFields();
    GapHyphens();
    GapDropped();
    GapCollapsed();
    RewriteSteps(" a + b", " a + b", " a + b", " a b", " a b");
    ExamplesFinished();
    FilterKeywordsStages(NoMarkup, "a + b", " a + b", " a + b", " a b", "a b");
  }

  // `a+ :b` becomes `a:b`: dropping an operator gap can form a new field prefix.

  lemma JoinedPrepared()
    ensures Prepare(NoMarkup("a+ :b")) == " a+ :b"
  {
  }

  lemma JoinedFields()
    ensures RemoveFieldPrefixes(" a+ :b") == " a+ :b"
  {
    assert FieldRun("a+ :b") == 1;
  }

  lemma JoinedHyphens()
    ensures DropUnspacedHyphens(" a+ :b") == " a+ :b"
  {
    assert DropHyphensAfter("b", false) == "b";
    assert DropHyphensAfter(":b", true) == ":b";
    assert DropHyphensAfter(" :b", false) == " :b";
    assert DropHyphensAfter("+ :b", false) == "+ :b";
    assert DropHyphensAfter("a+ :b", true) == "a+ :b";
  }

  /** ` xo yz` loses `o ` and joins `x` to `yz`. */
  lemma JoinedOperatorDropped(x: char, op: char, y: char, z: char)
    requires Plain(x) && IsOperator(op) && Plain(y) && Plain(z)
    ensures DropOperatorGaps([' ', x, op, ' ', y, z]) == [' ', x, y, z]
  {
    GapKeep(z, []);
    GapKeep(y, [z]);
    assert [y] + [z] == [y, z];
    GapDrop(op, ' ', [y, z]);
    assert [op, ' '] + [y, z] == [op, ' ', y, z];
    GapKeep(x, [op, ' ', y, z]);
    assert [x] + [op, ' ', y, z] == [x, op, ' ', y, z];
    GapKeep(' ', [x, op, ' ', y, z]);
    assert [' '] + [x, op, ' ', y, z] == [' ', x, op, ' ', y, z];
  }

  lemma JoinedGap()
    ensures DropOperatorGaps(" a+ :b") == " a:b"
  {
    JoinedOperatorDropped('a', '+', ':', 'b');
  }

  lemma JoinedCollapsed()
    ensures CollapseWhitespace(" a:b") == " a:b"
  {
    assert CollapseWhitespace("b") == "b";
    assert CollapseWhitespace(":b") == ":b";
    assert CollapseWhitespace("a:b") == "a:b";
    assert SpaceRun(" a:b") == 1;
  }

  /** The output can still hold a field prefix: `a+ :b` gives `a:b`. */
  lemma ExampleJoinedField()
    ensures FilterKeywords(NoMarkup, "a+ :b") == "a:b"
  {
    JoinedPrepared();
    ExamplesDeleted();
    JoinedFields();
    JoinedHyphens();
    JoinedGap();
    JoinedCollapsed();
    RewriteSteps(" a+ :b", " a+ :b", " a+ :b", " a:b", " a:b");
    ExamplesFinished();
    FilterKeywordsStages(NoMarkup, "a+ :b", " a+ :b", " a+ :b", " a:b", "a:b");
  }

  /**
   * The pipeline is not idempotent: its output for `&-&` is `&&`, which a
   * second pass removes, so a `&&` can be left in its output.
   */
  lemma ExampleNotIdempotent()
    ensures var once := FilterKeywords(NoMarkup, "&-&");
            once == "&&" && FilterKeywords(NoMarkup, once) != once
  {
    ExampleAmpersands();
    ExampleDoubleAmpersand();
  }
}
