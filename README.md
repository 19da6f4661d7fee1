# Phishpedia decision logic in Dafny

Phishpedia is a phishing-page detector. It takes a folder of captured pages, each with a
screenshot, its HTML and its URL. It detects logos on the screenshot. It matches them
against a list of brands. It reports a page as phishing when three things hold: a logo was
found, the logo belongs to a brand whose domain is not the page's, and the page asks for
credentials. This project models the part of `phishpedia.py` that makes that decision and
keeps the batch's result file, and proves properties of it:

- `InputBox` (`input_box.dfy`): the credential-input heuristic `simple_input_box_regex`.
  - It first selects the `<input>` elements that are not hidden and whose `name` and
    `placeholder` do not contain the literal, case-sensitive `"search"`.
  - It then drops those whose name and placeholder, concatenated, contain `search`,
    `query`, `find` or `keyword` as a whole word in any case.
  - The whole-word search is written out as the left-to-right scan of Python's `re.search`
    (`SearchFrom`). It is proved equal to a declarative definition (`HasKeywordWord`).
- `Pipeline` (`pipeline.dfy`): the early-return chain of `test_orig_phishpedia`: boxes, then
  the matcher's brand, then the input-box check.
- `Batch` (`batch.dfy`): the `__main__` loop, covering:
  - the screenshot check;
  - the fallback to `index.html` for the HTML file;
  - the fallback to `'https://' + folder` for the URL;
  - the substring dedup against the result file;
  - the forbidden-extension filter;
  - one tab-separated record appended per classified folder.

  The loop is the method `ProcessFolders`. It works on a `ResultFile` object and is proved
  equal to the fold `Run` over the folders. The lemmas are stated about `Run`.
- `Text` (`text.dfy`): Python's `in` on strings, the `\w`/`\b` word characters of `re` and
  its IGNORECASE comparison. `Wrappers` (`wrappers.dfy`): `Option` (Python's `None`) and
  `Outcome`, which is a value or the exception that escaped.

The logo detector, the Siamese matcher and the file system are inputs. Each folder is a
`Sample` record with these fields:

- whether `shot.png` exists;
- the parsed `html.txt`, or None when it is missing;
- the parsed `index.html`;
- the text of `info.txt`, or None;
- the boxes the detector would report;
- the matcher's answer;
- the two stage times as printed.

Exceptions that the modelled code lets escape are `Raised` outcomes. These are: a missing
HTML file once the input check is reached, a parser error, and `'{:.4f}'.format(None)` in the
phishing branch's log line. Such an exception ends the batch. Records written before it stay.

## Model

| member | source | states |
|---|---|---|
| Text.ContainsIff | phishpedia.py:172 | Python's `needle in hay` (the recursive scan `Contains`) holds exactly when `needle` starts at some position of `hay` |
| Text.OccursAtShift | phishpedia.py:172 | a string starts at position `i + 1` of a text exactly when it starts at `i` of the text without its first character |
| Text.ContainsTrivial | phishpedia.py:172 | the empty string is in every string, and every string is in itself |
| Text.ContainsInConcat | phishpedia.py:172 | a substring of a part is a substring of any concatenation around that part |
| Text.ContainsInLonger | phishpedia.py:172 | appending text never removes a substring |
| Text.ContainsTransitive | phishpedia.py:172 | a substring of a substring is a substring |
| Text.ContainsNeedsEveryChar | phishpedia.py:43-44 | every character of a contained string occurs in the containing one |
| Text.ContainsAt | phishpedia.py:172 | a string occurring at a known position is contained |
| Text.Contains | phishpedia.py:43-44 | definition: Python's `in` on strings (line 172) and XPath `contains` (lines 43-44), as a scan over start positions |
| Text.IsWordChar | phishpedia.py:46 | definition: the word characters of `\w` |
| Text.FoldEq | phishpedia.py:46 | definition: which subject character IGNORECASE lets match a pattern character |
| Text.MatchesIgnoringCaseAt | phishpedia.py:46 | definition: a literal of the pattern matches at a position under IGNORECASE |
| Text.AtWordBoundary | phishpedia.py:46 | definition: `\b`, exactly one neighbour being a word character |
| InputBox.FirstAlternative | phishpedia.py:46 | the first of the alternatives search, query, find and keyword, from index `k` on, that matches at `i` as a whole word in any case; None exactly when none does |
| InputBox.SearchFrom | phishpedia.py:46-49 | `re.search` from position `i`: the returned match is a whole-word, case-insensitive alternative at the leftmost matching position, and it is the first alternative matching there; None means no position from `i` on has a match |
| InputBox.Filter | phishpedia.py:47-50 | a list comprehension with a condition keeps exactly the elements that satisfy it, and never lengthens the list |
| InputBox.HasInputBox | phishpedia.py:34-55 | on a parsed page: true exactly when some `<input>` is not `type="hidden"`, has no literal `search` in `name` or `placeholder`, and has no keyword as a whole word in `name + placeholder`. False when the parser gives no tree. A read or parse exception propagates |
| InputBox.MentionsSearchWordIff | phishpedia.py:46-49 | the scan finds a match exactly when some alternative occurs somewhere as a whole word, ignoring case |
| InputBox.IsolatedKeywordIsFound | phishpedia.py:46-49 | a keyword in any case, with nothing or a non-word character on each side, is found |
| InputBox.PlacedKeywordMatches | phishpedia.py:46 | text matching an alternative matches it at its place inside a longer text |
| InputBox.BoundaryBeforeWord | phishpedia.py:46 | `\b` holds before a word that follows nothing or a non-word character |
| InputBox.BoundaryAfterWord | phishpedia.py:46 | `\b` holds after a word that nothing or a non-word character follows |
| InputBox.KeywordEndsAreLetters | phishpedia.py:46 | every alternative starts and ends with a lower-case letter |
| InputBox.FoldEqLetterIsWordChar | phishpedia.py:46 | whatever IGNORECASE lets stand for a letter is a word character |
| InputBox.ExcludedInputChangesNothing | phishpedia.py:42-50 | adding a hidden input, one with a literal `search` in its name or placeholder, or one whose text holds a keyword word, never changes the verdict |
| InputBox.BareInputQualifies | phishpedia.py:43-49 | an input with no attributes counts: a missing attribute never excludes |
| InputBox.NothingToInspect | phishpedia.py:38-55 | a page with no inputs, or no parse tree, has no input box |
| InputBox.KeywordLettersAreLower | phishpedia.py:46 | every character of every alternative is a lower-case ASCII letter |
| InputBox.MatchedTextIsWord | phishpedia.py:46 | text that matches an alternative is made of word characters |
| InputBox.SingleWordMentionsIff | phishpedia.py:46-49 | a text of word characters only holds a keyword word exactly when the whole text is a keyword in some case |
| InputBox.WordOfOtherLengthHasNoKeyword | phishpedia.py:46-49 | a single word shorter than 4 or longer than 7 characters holds no keyword |
| InputBox.WordAtLeftPart | phishpedia.py:46 | around a non-word separator, a match inside the left part is a match of the left part alone, and back |
| InputBox.WordAtRightPart | phishpedia.py:46 | the same for the right part |
| InputBox.ShiftedMatch | phishpedia.py:46 | matching inside the second part of a concatenation is matching in that part |
| InputBox.BoundaryInRightPart | phishpedia.py:46 | right of a non-word separator, `\b` holds where it holds in the right part |
| InputBox.MentionsSplitsAtSeparator | phishpedia.py:46-49 | `a + [c] + b` with `c` a non-word character holds a keyword word exactly when `a` or `b` does |
| InputBox.MatchAvoidsSeparator | phishpedia.py:46 | no match covers a non-word character |
| InputBox.NoLowerSNoSearch | phishpedia.py:43-44 | a text without a lower-case `s` does not contain `"search"` |
| InputBox.KeywordInsideWordIgnored | phishpedia.py:46-49 | `"finder"` holds `find`, but not as a whole word |
| InputBox.UnderscoreJoinsWords | phishpedia.py:43-49 | `_` is a word character: `"search_query"` holds no keyword word, though it holds the literal `search` |
| InputBox.SpaceSeparatesWords | phishpedia.py:46-49 | `"Find it"` holds a keyword word: case is ignored and a space ends a word |
| InputBox.CaseSensitiveSubstring | phishpedia.py:42-50 | an input named `"mySearchBox"` counts |
| InputBox.CapitalSearchIsNoSubstring | phishpedia.py:43 | XPath `contains` is case-sensitive: `"mySearchBox"` does not contain `"search"` |
| InputBox.CapitalSearchIsNoWord | phishpedia.py:46-49 | `"mySearchBox"` holds no keyword as a whole word |
| InputBox.QueryNameExcludes | phishpedia.py:46-50 | an input named `"query"` with no placeholder does not count |
| InputBox.GluedNameHasNoKeyword | phishpedia.py:46-49 | `"queryType"` holds no keyword word |
| InputBox.HereHasNoKeyword | phishpedia.py:46-49 | `"here"` holds no keyword word |
| InputBox.GluedKeywordIgnored | phishpedia.py:46-49 | `"queryType here"` holds no keyword word |
| InputBox.ConcatenationHidesKeyword | phishpedia.py:49 | name and placeholder are joined without a separator, so name `"query"` with placeholder `"Type here"` counts, though the name alone would not |
| InputBox.LoginPage | phishpedia.py:34-55 | a page whose only input is a password field has an input box |
| InputBox.HiddenAndSearchOnlyPage | phishpedia.py:34-55 | a page with only a hidden field and a `search_query` field has none |
| InputBox.SelectedByXPath | phishpedia.py:42-45 | definition: the XPath predicate, not `type="hidden"` and no literal `search` in `name` or `placeholder` |
| InputBox.WordAt | phishpedia.py:46 | definition: an alternative matches at a position ignoring case, with `\b` on both sides |
| InputBox.HasKeywordWord | phishpedia.py:46-49 | definition: some alternative matches somewhere as a whole word |
| InputBox.Qualifies | phishpedia.py:42-50 | definition: an input that survives the XPath selection and the regex filter |
| InputBox.SensitiveInputs | phishpedia.py:42-50 | definition: the XPath selection, then the list comprehension with the scan |
| InputBox.AttrText | phishpedia.py:49 | definition: `inp.get(attr, '')`, an absent attribute reading as the empty string |
| InputBox.AttrEquals | phishpedia.py:43-44 | definition: XPath `@type="hidden"`, false when the attribute is absent |
| InputBox.AttrContains | phishpedia.py:43-44 | definition: XPath `contains(@attr, "search")`, case-sensitive, on the empty string when the attribute is absent |
| InputBox.Keywords | phishpedia.py:46 | definition: the alternatives of the pattern, in pattern order |
| InputBox.SearchText | phishpedia.py:49 | definition: `name` followed by `placeholder`, with nothing between them |
| InputBox.MentionsSearchWord | phishpedia.py:49 | definition: the truth value of `search_pattern.search(...)`, by the leftmost scan |
| Pipeline.Classify | phishpedia.py:59-126 | the category is 0 or 1. It is 1 exactly when the box list is non-empty, the matcher names a brand, the page has an input box and the confidence is there. It raises exactly when the input check raises, or when the confidence is None on the phishing branch. With no boxes, target, domain and confidence are None and the match time is `"0"`. Otherwise they are the matcher's values, unmodified. Boxes and detection time always pass through |
| Pipeline.UnmatchedTime | phishpedia.py:66 | definition: `logo_match_time = 0` as `str` prints it, `"0"` |
| Pipeline.PhishingNamesBrand | phishpedia.py:107-118 | a phishing verdict always carries a target and a confidence |
| Pipeline.NoBoxesIgnoresLaterStages | phishpedia.py:61-92 | with no boxes the verdict is benign with None fields, whatever the matcher and the page would give |
| Pipeline.NoTargetIgnoresPage | phishpedia.py:107-109 | with no brand, the page is not read: any page, even an unreadable one, gives the same benign verdict |
| Pipeline.PhishingIffQualifyingInput | phishpedia.py:90-118 | on a parsed page and with a confidence present, phishing exactly when there are boxes, a brand, and an input that is neither hidden nor a search box |
| Pipeline.BrandOnLoginPageIsPhishing | phishpedia.py:59-126 | a brand logo over a password field gives category 1 with the matcher's brand, domain and confidence |
| Pipeline.BrandOnSearchPageIsBenign | phishpedia.py:112-115 | the same logo over hidden and search fields only gives category 0, still carrying the matcher's values |
| Batch.HtmlPath | phishpedia.py:158-165 | `html.txt` is used exactly when it exists, else `index.html` |
| Batch.PageOf | phishpedia.py:164-165 | the page read is that of the chosen file |
| Batch.Url | phishpedia.py:167-170 | the URL is the text of `info.txt` when it exists, else `"https://"` followed by the folder name |
| Batch.EndingIsMatch | phishpedia.py:175-176 | a text ending in `"." + ext` (ignoring case) has the pattern's match at the start of that ending |
| Batch.MatchIsEnding | phishpedia.py:175-176 | a match of `\.ext` running to the end of the text is an ending `"." + ext` |
| Batch.MatchBeforeNewline | phishpedia.py:175-176 | a match ending just before a final newline is a match of `$` |
| Batch.ExtensionEndingMatches | phishpedia.py:175-176 | an ending in an extension, possibly before one newline, is a regex match |
| Batch.MatchIsExtensionEnding | phishpedia.py:175-176 | a regex match is such an ending |
| Batch.EndsWithExtensionIff | phishpedia.py:175-176 | per extension, both directions of the above |
| Batch.ForbiddenSuffixIff | phishpedia.py:175-176 | the suffix test holds exactly when `re.search` of the whole pattern with IGNORECASE finds a match, with `$` also allowing one final newline |
| Batch.SuffixPatternMatches | phishpedia.py:175-176 | definition: `re.search` of `\.(…)$` with IGNORECASE finds a match at some position |
| Batch.ForbiddenExtensions | phishpedia.py:175 | definition: the alternatives of the suffix pattern, in pattern order |
| Batch.AtEnd | phishpedia.py:175 | definition: Python `$`, the end of the string or just before one final newline |
| Batch.SuffixMatchAt | phishpedia.py:175 | definition: `\.ext$` matches at a position, ignoring case |
| Batch.EndsWithExtension | phishpedia.py:175 | definition: the string ends in "." + ext ignoring case, possibly before one final newline |
| Batch.HasForbiddenSuffix | phishpedia.py:175-176 | definition: the URL ends in "." + a listed extension, ignoring case, possibly before one final newline |
| Batch.AlreadyRecorded | phishpedia.py:172 | definition: the result file exists and the URL is a substring of its contents |
| Batch.Store.Held | phishpedia.py:172-185 | definition: what the result file holds, the empty string when it is missing |
| Batch.Decide | phishpedia.py:162-181 | a folder is passed over for want of a screenshot exactly when it has none. It is classified, or raises, exactly when its screenshot exists, its URL is not a substring of an existing result file and it has no forbidden suffix. The checks come in source order. The verdict and the exception are those of the chain on the chosen page |
| Batch.Str | phishpedia.py:189-191 | `str(x)` of an optional string is the string itself when present, and `"None"` when it is None |
| Batch.CategoryText | phishpedia.py:188 | the category prints as `"0"` or `"1"` |
| Batch.Fields | phishpedia.py:186-193 | a record has 8 fields: folder, URL, category, target, domain, confidence, detection time, match time |
| Batch.Split | phishpedia.py:186-193 | the reader that `RecordRoundTrip` uses to state the written format (the source has no split): `str.split` on one character gives at least one part, and no part holds the separator |
| Batch.IndexOf | phishpedia.py:186-193 | helper of the reader `Split` that `RecordRoundTrip` uses to state the written format: the first position of a character |
| Batch.SplitJoin | phishpedia.py:186-193 | splitting joined fields at the separator gives the fields back when none holds it |
| Batch.Join | phishpedia.py:186-193 | definition: the fields with the separator between them |
| Batch.Record | phishpedia.py:186-193 | definition: the eight fields joined by tabs, ended by a newline |
| Batch.RecordIsWrites | phishpedia.py:186-193 | the record is the eight written pieces in order, each field followed by a tab and the last by a newline |
| Batch.RecordRoundTrip | phishpedia.py:186-193 | a record ends in a newline, and splitting the rest at tabs gives the eight fields, when no field holds a tab or a newline |
| Batch.RecordHoldsUrl | phishpedia.py:172-187 | a record contains the URL it was written for |
| Batch.Step | phishpedia.py:162-193 | a skipped folder leaves the file unchanged. A classified one appends exactly its record to what the file holds, and creates the file, empty before the record, when it was missing. An exception stops everything after it |
| Batch.FirstRecordStartsFile | phishpedia.py:172-185 | on a missing file the dedup finds nothing, and the first record is all the new file holds |
| Batch.Run | phishpedia.py:157-193 | definition: the loop as a fold of `Step` over the folders in order, which `ProcessFolders` is proved equal to |
| Batch.RunAfterRaise | phishpedia.py:157-181 | after an exception no further folder is looked at |
| Batch.RunConcat | phishpedia.py:157 | folders are processed in listing order: running `a + b` is running `a`, then `b` |
| Batch.RunExtends | phishpedia.py:184-193 | the loop only appends: an existing file stays and its old contents stay a prefix, a raised exception stays |
| Batch.RunNotRaised | phishpedia.py:157-181 | a run that ends without exception started without one |
| Batch.SkipPersists | phishpedia.py:162-177 | a folder that is skipped stays skipped after further appends |
| Batch.ClassifiedThenRecorded | phishpedia.py:172-193 | once a folder has been classified, the dedup skips it |
| Batch.AllSettled | phishpedia.py:157-193 | after a run without exception, every folder of the run is skipped on the resulting file |
| Batch.StepSettles | phishpedia.py:162-193 | one more folder keeps all earlier skipped folders skipped, and leaves the new one skipped too |
| Batch.SkipAllIsIdentity | phishpedia.py:162-177 | folders that are all skipped change nothing |
| Batch.RerunChangesNothing | phishpedia.py:157-193 | after a run that ended without exception, running the batch again over the same folders on the file it produced changes nothing |
| Batch.SameUrlRecordedOnce | phishpedia.py:167-173 | two folders with the same URL are recorded once: the second, if it has a screenshot, is skipped as already recorded |
| Batch.UrlInsideRecordedUrlIsSkipped | phishpedia.py:172-173 | the dedup is by substring: a URL inside a recorded one is skipped though it was never classified |
| Batch.EmptyUrlIsSkipped | phishpedia.py:167-173 | an empty `info.txt` gives the empty URL, which every existing result file contains |
| Batch.AiDomainIsSkipped | phishpedia.py:175-177 | `"https://example.AI\n"` is skipped: the `.ai` extension catches a top-level domain, in any case, before a final newline |
| Batch.ResultFile.constructor | phishpedia.py:172-185 | a result file with the given existence and contents |
| Batch.ResultFile.Write | phishpedia.py:185-193 | a write in append mode adds the text at the end of the file, or creates a missing file holding only the text |
| Batch.ProcessFolders | phishpedia.py:157-193 | the loop leaves the file, and returns the exception that ended it, exactly as `Run` over the folders from the file's initial state |

## Left out

- Logo detection (`ELE_MODEL.predict`): its boxes are an input of each sample.
- The Siamese matcher and the brand/domain consistency check (`check_domain_brand_inconsistency`): `logo_matching` is not part of this model. Its answer is an input. A None target means no reportable brand.
- HTML reading and parsing with lxml, and XPath evaluation. A page is given as its `<input>` elements, in document order. These are the ones `.//input` selects below the root, so the root element itself is never one of them. A parser error or a missing file is an `Unreadable` page. A parser that returns None is `NoTree`.
- Floating point: the confidence `siamese_conf`, the stage times and `round(…, 4)`. These are opaque strings, as they are printed by `str`. `matched_domain` is also the string `str` prints for it.
- Visualisation (`vis`, `cv2.putText`, `cv2.imwrite`), `torch.cuda.empty_cache`, logging output, argparse, `os.makedirs` and `tqdm`. The model assumes `save_vis` is off, so the drawing of the matched box is not modelled.
- The listing order of `os.listdir`: the samples come in the order they are given.
- Encodings. `info.txt` and the result file are read as strings. The retry in UTF-8 after a `UnicodeError` on writing in ISO-8859-1 (lines 194-203) is left out, and so is a partial first write. `ResultFile.Write` appends text as it is, so `AllSettled` and `RerunChangesNothing` hold only for records that ISO-8859-1 can encode: a URL with a character outside Latin-1 makes the source fall back to UTF-8, and the next run, reading the file as ISO-8859-1, does not find that URL and classifies the folder again. The same holds for a carriage return: the read at line 172 is in text mode and turns `'\r'` into `'\n'`, so a folder whose name holds `'\r'` and that has no `info.txt` gets the URL `'https://' + folder`, which lines 186-187 write as it is and later runs never find. A URL taken from `info.txt` cannot hold `'\r'`, since line 168 reads it in text mode too.
- ProcessFolders: the eight `f.write` calls are one `Write` of the whole record. `RecordIsWrites` proves that this record is the eight pieces in order.
- Text.IsWordChar, InputBox.HasInputBox: `\w` is exact for U+0000..U+00FF and for U+0130, U+0131, U+017F and U+212A. Every other character above U+00FF is taken as a non-word character.
- InputBox.HasInputBox: IGNORECASE is modelled only for the pattern characters that occur here, which are lower-case ASCII letters, digits and `.`.
- The literal `"search"` test is XPath `contains`, which is case-sensitive; the model follows the code (`CapitalSearchIsNoSubstring`).
