/**
 * The credential-input heuristic of phishpedia.py (`simple_input_box_regex`):
 * a page "has an input box" when one of its `<input>` elements is neither
 * hidden nor a search box.
 */
module InputBox {
  import opened Wrappers
  import opened Text

  /** One parsed `<input>` element: its `type`, `name` and `placeholder` attributes, each possibly absent. */
  datatype InputElement = InputElement(inputType: Option<string>, name: Option<string>, placeholder: Option<string>)

  /**
   * What opening and parsing the HTML file yields: an exception, a parser
   * that returned None, or the `<input>` elements that `.//input` selects
   * below the root, in document order.
   */
  datatype Page = Unreadable(error: Error) | NoTree | Tree(inputs: seq<InputElement>)

  /** `inp.get(attr, '')`: an absent attribute reads as the empty string. */
  function AttrText(a: Option<string>): string {
    a.GetOr("")
  }

  /** XPath `@attr = "v"`: false when the attribute is absent. */
  predicate AttrEquals(a: Option<string>, v: string) {
    a.Some? && a.value == v
  }

  /** XPath `contains(@attr, "v")`, case-sensitive; an absent attribute is the empty string. */
  predicate AttrContains(a: Option<string>, v: string) {
    Contains(AttrText(a), v)
  }

  /** The XPath predicate of the selection: not hidden, and no literal "search" in name or placeholder. */
  predicate SelectedByXPath(e: InputElement) {
    && !AttrEquals(e.inputType, "hidden")
    && !AttrContains(e.name, "search")
    && !AttrContains(e.placeholder, "search")
  }

  /** The alternatives of `\b(search|query|find|keyword)\b`, in pattern order. */
  const Keywords: seq<string> := ["search", "query", "find", "keyword"]

  /** Alternative `w` matches `s` at `i` as a whole word, ignoring case. */
  predicate WordAt(s: string, w: string, i: int) {
    && MatchesIgnoringCaseAt(s, w, i)
    && AtWordBoundary(s, i) && AtWordBoundary(s, i + |w|)
  }

  /** A match of the search pattern: where it starts and which alternative matched. */
  datatype Match = Match(start: nat, alternative: nat)

  /** No alternative matches at position `j` of `s`. */
  predicate NoWordAt(s: string, j: int) {
    forall k :: 0 <= k < |Keywords| ==> !WordAt(s, Keywords[k], j)
  }

  /** The first alternative, from index `k` on, that matches at `i`. */
  function FirstAlternative(s: string, i: nat, k: nat): (r: Option<nat>)
    requires k <= |Keywords|
    decreases |Keywords| - k
    ensures r.Some? ==> k <= r.value < |Keywords| && WordAt(s, Keywords[r.value], i)
    ensures r.Some? ==> forall k' :: k <= k' < r.value ==> !WordAt(s, Keywords[k'], i)
    ensures r.None? ==> forall k' :: k <= k' < |Keywords| ==> !WordAt(s, Keywords[k'], i)
  {
    if k == |Keywords| then None
    else if WordAt(s, Keywords[k], i) then Some(k)
    else FirstAlternative(s, i, k + 1)
  }

  /**
   * `re.search` of the pattern in `s`, starting at `i`: the leftmost position
   * where some alternative matches, and the first alternative matching there.
   */
  function SearchFrom(s: string, i: nat): (r: Option<Match>)
    requires i <= |s|
    decreases |s| - i
    ensures r.Some? ==> && i <= r.value.start <= |s| && r.value.alternative < |Keywords|
                        && WordAt(s, Keywords[r.value.alternative], r.value.start)
    ensures r.Some? ==> forall j :: i <= j < r.value.start ==> NoWordAt(s, j)
    ensures r.Some? ==> forall k :: 0 <= k < r.value.alternative ==> !WordAt(s, Keywords[k], r.value.start)
    ensures r.None? ==> forall j :: i <= j <= |s| ==> NoWordAt(s, j)
  {
    match FirstAlternative(s, i, 0)
    case Some(k) => Some(Match(i, k))
    case None =>
      assert NoWordAt(s, i);
      if i == |s| then None else SearchFrom(s, i + 1)
  }

  /** The truth value of `search_pattern.search(s)`, computed by the scan. */
  predicate MentionsSearchWord(s: string) {
    SearchFrom(s, 0).Some?
  }

  /** Some alternative of the search pattern occurs in `s` as a whole word, ignoring case. */
  predicate HasKeywordWord(s: string) {
    exists i, k :: 0 <= i <= |s| && 0 <= k < |Keywords| && WordAt(s, Keywords[k], i)
  }

  /** The text the pattern is applied to: name and placeholder, concatenated without a separator. */
  function SearchText(e: InputElement): string {
    AttrText(e.name) + AttrText(e.placeholder)
  }

  /** An element that survives both filters. */
  predicate Qualifies(e: InputElement) {
    SelectedByXPath(e) && !HasKeywordWord(SearchText(e))
  }

  /** The elements of `s` that satisfy `p`, in order (a list comprehension with a condition). */
  function Filter<T(!new)>(p: T -> bool, s: seq<T>): (r: seq<T>)
    ensures |r| <= |s|
    ensures forall x :: x in r <==> x in s && p(x)
  {
    if s == [] then [] else (if p(s[0]) then [s[0]] else []) + Filter(p, s[1..])
  }

  /** The search-box-free inputs: the XPath selection, then the regex filter. */
  function SensitiveInputs(inputs: seq<InputElement>): seq<InputElement> {
    Filter((e: InputElement) => !MentionsSearchWord(SearchText(e)), Filter(SelectedByXPath, inputs))
  }

  /** `simple_input_box_regex`: whether the page holds one input that is not hidden and not a search box. */
  function HasInputBox(page: Page): (r: Outcome<bool>)
    ensures page.Tree? ==> r == Done(exists i :: 0 <= i < |page.inputs| && Qualifies(page.inputs[i]))
    ensures page.NoTree? ==> r == Done(false)
    ensures page.Unreadable? ==> r == Raised(page.error)
  {
    match page
    case Unreadable(e) => Raised(e)
    case NoTree => Done(false)
    case Tree(inputs) =>
      var sensitive := SensitiveInputs(inputs);
      assert sensitive != [] ==> sensitive[0] in sensitive;
      assert forall e :: MentionsSearchWord(SearchText(e)) == HasKeywordWord(SearchText(e)) by {
        forall e { MentionsSearchWordIff(SearchText(e)); }
      }
      Done(|sensitive| > 0)
  }

  /** The scan finds a match exactly when some alternative occurs somewhere as a whole word. */
  lemma MentionsSearchWordIff(s: string)
    ensures MentionsSearchWord(s) <==> HasKeywordWord(s)
  {
    if !MentionsSearchWord(s) {
      forall i, k | 0 <= i <= |s| && 0 <= k < |Keywords| ensures !WordAt(s, Keywords[k], i) {
        assert NoWordAt(s, i);
      }
    }
  }

  /**
   * A keyword written in any case, with nothing or a non-word character on
   * each side, is found by the search.
   */
  lemma {:induction false} IsolatedKeywordIsFound(pre: string, w: string, post: string, k: nat)
    requires k < |Keywords| && MatchesIgnoringCase(w, Keywords[k])
    requires pre == [] || !IsWordChar(pre[|pre| - 1])
    requires post == [] || !IsWordChar(post[0])
    ensures HasKeywordWord(pre + w + post)
  {
    var s, n := pre + w + post, |pre|;
    PlacedKeywordMatches(pre, w, post, k);
    KeywordEndsAreLetters(k);
    FoldEqLetterIsWordChar(w[0], Keywords[k][0]);
    FoldEqLetterIsWordChar(w[|w| - 1], Keywords[k][|w| - 1]);
    BoundaryBeforeWord(pre, w, post);
    BoundaryAfterWord(pre, w, post);
    assert WordAt(s, Keywords[k], n);
  }

  /** Before a word that follows nothing or a non-word character lies a word boundary. */
  lemma BoundaryBeforeWord(pre: string, w: string, post: string)
    requires |w| > 0 && IsWordChar(w[0])
    requires pre == [] || !IsWordChar(pre[|pre| - 1])
    ensures AtWordBoundary(pre + w + post, |pre|)
  {
    var s := pre + w + post;
    assert s[|pre|] == w[0];
    assert |pre| > 0 ==> s[|pre| - 1] == pre[|pre| - 1];
  }

  /** After a word that nothing or a non-word character follows lies a word boundary. */
  lemma BoundaryAfterWord(pre: string, w: string, post: string)
    requires |w| > 0 && IsWordChar(w[|w| - 1])
    requires post == [] || !IsWordChar(post[0])
    ensures AtWordBoundary(pre + w + post, |pre| + |w|)
  {
    var s := pre + w + post;
    assert s[|pre| + |w| - 1] == w[|w| - 1];
    assert |post| > 0 ==> s[|pre| + |w|] == post[0];
  }

  /** A text matching an alternative, placed between two others, matches it at its place. */
  lemma PlacedKeywordMatches(pre: string, w: string, post: string, k: nat)
    requires k < |Keywords| && MatchesIgnoringCase(w, Keywords[k])
    ensures MatchesIgnoringCaseAt(pre + w + post, Keywords[k], |pre|)
  {
    var s, n := pre + w + post, |pre|;
    assert forall j :: 0 <= j < |w| ==> s[n + j] == w[j];
  }

  /** Every alternative begins and ends with a lower-case ASCII letter. */
  lemma KeywordEndsAreLetters(k: nat)
    requires k < |Keywords|
    ensures |Keywords[k]| > 0
    ensures IsAsciiLower(Keywords[k][0]) && IsAsciiLower(Keywords[k][|Keywords[k]| - 1])
  {
  }

  /** What matches a letter under IGNORECASE is a word character. */
  lemma FoldEqLetterIsWordChar(c: char, p: char)
    requires IsAsciiLower(p) && FoldEq(c, p)
    ensures IsWordChar(c)
  {
  }

  /** A hidden input, or one whose name or placeholder holds a literal "search", never counts: adding it to a page changes nothing. */
  lemma {:induction false} ExcludedInputChangesNothing(before: seq<InputElement>, e: InputElement, after: seq<InputElement>)
    requires || AttrEquals(e.inputType, "hidden")
             || AttrContains(e.name, "search")
             || AttrContains(e.placeholder, "search")
             || HasKeywordWord(SearchText(e))
    ensures HasInputBox(Tree(before + [e] + after)) == HasInputBox(Tree(before + after))
  {
    var all, rest := before + [e] + after, before + after;
    assert !Qualifies(e);
    forall i | 0 <= i < |all| && Qualifies(all[i])
      ensures exists j :: 0 <= j < |rest| && Qualifies(rest[j])
    {
      if i < |before| {
        assert rest[i] == all[i];
      } else {
        assert i > |before|;
        assert rest[i - 1] == all[i];
      }
    }
    forall j | 0 <= j < |rest| && Qualifies(rest[j])
      ensures exists i :: 0 <= i < |all| && Qualifies(all[i])
    {
      if j < |before| {
        assert all[j] == rest[j];
      } else {
        assert all[j + 1] == rest[j];
      }
    }
  }

  /** An input with no attributes at all counts: absent attributes never exclude. */
  lemma BareInputQualifies()
    ensures Qualifies(InputElement(None, None, None))
    ensures HasInputBox(Tree([InputElement(None, None, None)])) == Done(true)
  {
    assert SearchText(InputElement(None, None, None)) == "";
    assert !Contains("", "search");
    assert Qualifies(InputElement(None, None, None));
    assert [InputElement(None, None, None)][0] == InputElement(None, None, None);
  }

  /** An empty page, or one the parser could not build a tree for, has no input box. */
  lemma NothingToInspect()
    ensures HasInputBox(Tree([])) == Done(false)
    ensures HasInputBox(NoTree) == Done(false)
  {
  }

  /** Every character of every alternative is a lower-case ASCII letter. */
  lemma KeywordLettersAreLower(k: nat, j: nat)
    requires k < |Keywords| && j < |Keywords[k]|
    ensures IsAsciiLower(Keywords[k][j])
  {
    assert k == 0 || k == 1 || k == 2 || k == 3;
  }

  /** Text that matches an alternative consists of word characters. */
  lemma MatchedTextIsWord(t: string, k: nat, i: nat, j: nat)
    requires k < |Keywords| && MatchesIgnoringCaseAt(t, Keywords[k], i) && i <= j < i + |Keywords[k]|
    ensures IsWordChar(t[j])
  {
    KeywordLettersAreLower(k, j - i);
    FoldEqLetterIsWordChar(t[j], Keywords[k][j - i]);
  }

  /** A text made only of word characters mentions a keyword exactly when the whole text is one, in some case. */
  lemma {:induction false} SingleWordMentionsIff(s: string)
    requires AllWordChars(s)
    ensures HasKeywordWord(s) <==> exists k :: 0 <= k < |Keywords| && MatchesIgnoringCase(s, Keywords[k])
  {
    if HasKeywordWord(s) {
      var i, k :| 0 <= i <= |s| && 0 <= k < |Keywords| && WordAt(s, Keywords[k], i);
      var w := Keywords[k];
      KeywordEndsAreLetters(k);
      assert i == 0;
      assert |w| == |s|;
    }
    if exists k :: 0 <= k < |Keywords| && MatchesIgnoringCase(s, Keywords[k]) {
      var k :| 0 <= k < |Keywords| && MatchesIgnoringCase(s, Keywords[k]);
      KeywordEndsAreLetters(k);
      assert s[0..|Keywords[k]|] == s;
      assert WordAt(s, Keywords[k], 0);
    }
  }

  /** A single word shorter or longer than every alternative holds none of them. */
  lemma WordOfOtherLengthHasNoKeyword(s: string)
    requires AllWordChars(s)
    requires |s| < 4 || |s| > 7
    ensures !HasKeywordWord(s)
  {
    SingleWordMentionsIff(s);
    forall k | 0 <= k < |Keywords| ensures |Keywords[k]| != |s| {
      assert k == 0 || k == 1 || k == 2 || k == 3;
    }
  }

  /** A match lying inside the left part `a` of `a + [c] + b`, where `c` is not a word character, is a match in `a`, and back. */
  lemma WordAtLeftPart(a: string, c: char, b: string, w: string, i: nat)
    requires !IsWordChar(c) && i + |w| <= |a|
    ensures WordAt(a + [c] + b, w, i) <==> WordAt(a, w, i)
  {
    var s := a + [c] + b;
    assert forall j :: 0 <= j < |a| ==> s[j] == a[j];
    assert s[|a|] == c;
  }

  /** A match lying inside the right part `b` of `a + [c] + b`, where `c` is not a word character, is a match in `b`, and back. */
  lemma WordAtRightPart(a: string, c: char, b: string, w: string, i: nat)
    requires !IsWordChar(c) && i + |w| <= |b|
    ensures WordAt(a + [c] + b, w, |a| + 1 + i) <==> WordAt(b, w, i)
  {
    ShiftedMatch(a + [c], b, w, i);
    BoundaryInRightPart(a, c, b, i);
    BoundaryInRightPart(a, c, b, i + |w|);
  }

  /** Matching in the second part of a concatenation is matching in that part. */
  lemma ShiftedMatch(a: string, b: string, w: string, i: nat)
    requires i + |w| <= |b|
    ensures MatchesIgnoringCaseAt(a + b, w, |a| + i) <==> MatchesIgnoringCaseAt(b, w, i)
  {
    var s := a + b;
    assert forall t :: |a| <= t < |s| ==> s[t] == b[t - |a|];
  }

  /** Right of a non-word separator, word boundaries are those of the right part. */
  lemma BoundaryInRightPart(a: string, c: char, b: string, j: nat)
    requires !IsWordChar(c) && j <= |b|
    ensures AtWordBoundary(a + [c] + b, |a| + 1 + j) <==> AtWordBoundary(b, j)
  {
    var s := a + [c] + b;
    assert s[|a| + j] == if j == 0 then c else b[j - 1];
    assert j < |b| ==> s[|a| + 1 + j] == b[j];
  }

  /**
   * The search decomposes at a non-word character: `a + [c] + b` mentions a
   * keyword exactly when `a` or `b` does, because no match can cover `c`.
   */
  lemma {:induction false} MentionsSplitsAtSeparator(a: string, c: char, b: string)
    requires !IsWordChar(c)
    ensures HasKeywordWord(a + [c] + b) <==> HasKeywordWord(a) || HasKeywordWord(b)
  {
    var s := a + [c] + b;
    if HasKeywordWord(s) {
      var i, k :| 0 <= i <= |s| && 0 <= k < |Keywords| && WordAt(s, Keywords[k], i);
      MatchAvoidsSeparator(a, c, b, k, i);
    }
    if HasKeywordWord(a) {
      var i, k :| 0 <= i <= |a| && 0 <= k < |Keywords| && WordAt(a, Keywords[k], i);
      WordAtLeftPart(a, c, b, Keywords[k], i);
    }
    if HasKeywordWord(b) {
      var i, k :| 0 <= i <= |b| && 0 <= k < |Keywords| && WordAt(b, Keywords[k], i);
      WordAtRightPart(a, c, b, Keywords[k], i);
    }
  }

  /** A match in `a + [c] + b` lies wholly in `a` or wholly in `b` when `c` is not a word character. */
  lemma MatchAvoidsSeparator(a: string, c: char, b: string, k: nat, i: nat)
    requires !IsWordChar(c) && k < |Keywords| && WordAt(a + [c] + b, Keywords[k], i)
    ensures || (i + |Keywords[k]| <= |a| && WordAt(a, Keywords[k], i))
            || (i >= |a| + 1 && WordAt(b, Keywords[k], i - |a| - 1))
  {
    var s, w := a + [c] + b, Keywords[k];
    if i <= |a| < i + |w| {
      MatchedTextIsWord(s, k, i, |a|);
      assert false;
    } else if i + |w| <= |a| {
      WordAtLeftPart(a, c, b, w, i);
    } else {
      WordAtRightPart(a, c, b, w, i - |a| - 1);
    }
  }

  /** A text without the character 's' does not contain "search". */
  lemma NoLowerSNoSearch(t: string)
    requires 's' !in t
    ensures !Contains(t, "search")
  {
    if Contains(t, "search") {
      ContainsNeedsEveryChar(t, "search", 0);
    }
  }

  /** "finder" holds "find", but not as a whole word. */
  lemma KeywordInsideWordIgnored()
    ensures !HasKeywordWord("finder")
  {
    SingleWordMentionsIff("finder");
    assert !FoldEq("finder"[0], Keywords[0][0]);
  }

  /** `_` is a word character: "search_query" holds no keyword as a whole word, though it holds the literal "search". */
  lemma UnderscoreJoinsWords()
    ensures !HasKeywordWord("search_query")
    ensures Contains("search_query", "search")
  {
    WordOfOtherLengthHasNoKeyword("search_query");
    assert OccursAt("search_query", "search", 0);
    ContainsAt("search_query", "search", 0);
  }

  /** A keyword in any case, followed by a space, counts. */
  lemma SpaceSeparatesWords()
    ensures HasKeywordWord("Find it")
  {
    SingleWordMentionsIff("Find");
    assert MatchesIgnoringCase("Find", Keywords[2]);
    assert "Find it" == "Find" + [' '] + "it";
    MentionsSplitsAtSeparator("Find", ' ', "it");
  }

  /**
   * The literal "search" test is case-sensitive and the regex does not fire
   * inside a word, so an input named "mySearchBox" counts.
   */
  lemma CaseSensitiveSubstring()
    ensures Qualifies(InputElement(None, Some("mySearchBox"), None))
  {
    assert SearchText(InputElement(None, Some("mySearchBox"), None)) == "mySearchBox";
    CapitalSearchIsNoSubstring();
    CapitalSearchIsNoWord();
  }

  /** The XPath test is case-sensitive: "mySearchBox" does not contain "search". */
  lemma CapitalSearchIsNoSubstring()
    ensures !AttrContains(Some("mySearchBox"), "search")
  {
    NoLowerSNoSearch("mySearchBox");
  }

  /** "mySearchBox" is a single eleven-letter word, so no keyword is a whole word of it. */
  lemma CapitalSearchIsNoWord()
    ensures !HasKeywordWord("mySearchBox")
  {
    assert AllWordChars("mySearchBox");
    WordOfOtherLengthHasNoKeyword("mySearchBox");
  }

  /** An input named "query" is a search box. */
  lemma QueryNameExcludes()
    ensures !Qualifies(InputElement(None, Some("query"), None))
  {
    assert SearchText(InputElement(None, Some("query"), None)) == "query";
    SingleWordMentionsIff("query");
    assert MatchesIgnoringCase("query", Keywords[1]);
  }

  /** "queryType" is one word of nine letters, so no keyword is a whole word of it. */
  lemma GluedNameHasNoKeyword()
    ensures !HasKeywordWord("queryType")
  {
    assert AllWordChars("queryType");
    WordOfOtherLengthHasNoKeyword("queryType");
  }

  /** "here" is a word and none of the keywords. */
  lemma HereHasNoKeyword()
    ensures !HasKeywordWord("here")
  {
    SingleWordMentionsIff("here");
    assert !FoldEq("here"[0], Keywords[2][0]);
  }

  /** "queryType here" holds no keyword as a whole word: "query" runs into "Type". */
  lemma GluedKeywordIgnored()
    ensures !HasKeywordWord("queryType here")
  {
    assert "queryType here" == "queryType" + [' '] + "here";
    MentionsSplitsAtSeparator("queryType", ' ', "here");
    GluedNameHasNoKeyword();
    HereHasNoKeyword();
  }

  /**
   * Name and placeholder are joined without a separator, so the keyword that
   * makes the name alone a search box is hidden by the placeholder after it.
   */
  lemma ConcatenationHidesKeyword()
    ensures Qualifies(InputElement(None, Some("query"), Some("Type here")))
  {
    NoLowerSNoSearch("Type here");
    GluedKeywordIgnored();
    assert SearchText(InputElement(None, Some("query"), Some("Type here"))) == "queryType here";
  }

  /** A page whose only input is a password field has an input box. */
  lemma LoginPage()
    ensures HasInputBox(Tree([InputElement(None, Some("password"), None)])) == Done(true)
  {
    var e := InputElement(None, Some("password"), None);
    if Contains("password", "search") {
      ContainsNeedsEveryChar("password", "search", 1);
    }
    assert SearchText(e) == "password";
    WordOfOtherLengthHasNoKeyword("password");
    assert Qualifies(e);
    assert [e][0] == e;
  }

  /** A page with only a hidden field and a search field has no input box. */
  lemma HiddenAndSearchOnlyPage()
    ensures HasInputBox(Tree([InputElement(Some("hidden"), Some("csrf"), None), InputElement(None, Some("search_query"), None)])) == Done(false)
  {
    UnderscoreJoinsWords();
    var inputs := [InputElement(Some("hidden"), Some("csrf"), None), InputElement(None, Some("search_query"), None)];
    assert !Qualifies(inputs[0]) && !Qualifies(inputs[1]);
  }
}
