/**
 * The decision chain of `PhishpediaWrapper.test_orig_phishpedia`: the logo
 * detector's boxes, the logo matcher's answer and the input-box check, taken
 * in that order, each able to end the chain with a benign verdict.
 */
module Pipeline {
  import opened Wrappers
  import opened InputBox

  /** One logo box reported by the detector, as corner coordinates. */
  datatype Box = Box(x1: real, y1: real, x2: real, y2: real)

  /**
   * What `check_domain_brand_inconsistency` returns: the brand the logo
   * matched (None when no brand is reportable, including when the URL's
   * domain belongs to that brand), the matched domain as `str` prints it,
   * the matched box, and the similarity as it is printed.
   */
  datatype MatchOutcome = MatchOutcome(target: Option<string>, domain: Option<string>, coord: Option<Box>, conf: Option<string>)

  /** The tuple `test_orig_phishpedia` returns, without the visualisation image. */
  datatype Verdict = Verdict(
    category: nat,
    target: Option<string>,
    domain: Option<string>,
    conf: Option<string>,
    boxes: seq<Box>,
    recogTime: string,
    matchTime: string)

  const Benign: nat := 0
  const Phishing: nat := 1

  /** `logo_match_time` keeps its initial value 0, printed as "0", when the matcher is not run. */
  const UnmatchedTime: string := "0"

  /**
   * The chain, given the detector's boxes, the answer the matcher gives for
   * them, the HTML page the input-box check would read and the two stage
   * times as printed. The phishing branch formats the confidence with
   * `{:.4f}` for its log line, which raises when the confidence is None.
   */
  function Classify(boxes: seq<Box>, matcher: MatchOutcome, page: Page, recogTime: string, matchTime: string): (r: Outcome<Verdict>)
    ensures r.Done? ==> r.value.category == Benign || r.value.category == Phishing
    ensures r.Done? && r.value.category == Phishing <==>
      |boxes| > 0 && matcher.target.Some? && HasInputBox(page) == Done(true) && matcher.conf.Some?
    ensures r.Raised? <==>
      |boxes| > 0 && matcher.target.Some? && (HasInputBox(page).Raised? || (HasInputBox(page) == Done(true) && matcher.conf.None?))
    ensures r.Raised? && HasInputBox(page).Raised? ==> r.error == HasInputBox(page).error
    ensures r.Raised? && !HasInputBox(page).Raised? ==> r.error == FormatError
    ensures r.Done? ==> r.value.boxes == boxes && r.value.recogTime == recogTime
    ensures r.Done? && |boxes| == 0 ==> r.value.target.None? && r.value.domain.None? && r.value.conf.None? && r.value.matchTime == UnmatchedTime
    ensures r.Done? && |boxes| > 0 ==>
      r.value.target == matcher.target && r.value.domain == matcher.domain && r.value.conf == matcher.conf && r.value.matchTime == matchTime
  {
    if |boxes| == 0 then Done(Verdict(Benign, None, None, None, boxes, recogTime, UnmatchedTime))
    else
      var benign := Verdict(Benign, matcher.target, matcher.domain, matcher.conf, boxes, recogTime, matchTime);
      if matcher.target.None? then Done(benign)
      else match HasInputBox(page)
        case Raised(e) => Raised(e)
        case Done(false) => Done(benign)
        case Done(true) =>
          if matcher.conf.None? then Raised(FormatError)
          else Done(benign.(category := Phishing))
  }

  /** A phishing verdict always names the brand and its confidence. */
  lemma PhishingNamesBrand(boxes: seq<Box>, matcher: MatchOutcome, page: Page, recogTime: string, matchTime: string)
    requires Classify(boxes, matcher, page, recogTime, matchTime).Done?
    requires Classify(boxes, matcher, page, recogTime, matchTime).value.category == Phishing
    ensures Classify(boxes, matcher, page, recogTime, matchTime).value.target.Some?
    ensures Classify(boxes, matcher, page, recogTime, matchTime).value.conf.Some?
  {
  }

  /** With no boxes, neither the matcher's answer nor the page changes the verdict. */
  lemma NoBoxesIgnoresLaterStages(m1: MatchOutcome, m2: MatchOutcome, p1: Page, p2: Page, recogTime: string, t1: string, t2: string)
    ensures Classify([], m1, p1, recogTime, t1) == Classify([], m2, p2, recogTime, t2)
    ensures Classify([], m1, p1, recogTime, t1) == Done(Verdict(Benign, None, None, None, [], recogTime, UnmatchedTime))
  {
  }

  /** When the matcher reports no brand, the page is never read: even an unreadable one gives a benign verdict. */
  lemma NoTargetIgnoresPage(boxes: seq<Box>, matcher: MatchOutcome, p1: Page, p2: Page, recogTime: string, matchTime: string)
    requires |boxes| > 0 && matcher.target.None?
    ensures Classify(boxes, matcher, p1, recogTime, matchTime) == Classify(boxes, matcher, p2, recogTime, matchTime)
    ensures Classify(boxes, matcher, p1, recogTime, matchTime).Done?
    ensures Classify(boxes, matcher, p1, recogTime, matchTime).value.category == Benign
  {
  }

  /**
   * On a parsed page, the verdict is phishing exactly when a logo was
   * detected, it matched a brand with a confidence, and one `<input>` is
   * neither hidden nor a search box.
   */
  lemma PhishingIffQualifyingInput(boxes: seq<Box>, matcher: MatchOutcome, inputs: seq<InputElement>, recogTime: string, matchTime: string)
    requires matcher.conf.Some?
    ensures Classify(boxes, matcher, Tree(inputs), recogTime, matchTime).Done?
    ensures Classify(boxes, matcher, Tree(inputs), recogTime, matchTime).value.category == Phishing <==>
      |boxes| > 0 && matcher.target.Some? && exists i :: 0 <= i < |inputs| && Qualifies(inputs[i])
  {
  }

  /** A brand logo on a page asking for a password is reported as phishing for that brand. */
  lemma BrandOnLoginPageIsPhishing()
    ensures var logo := Box(10.0, 10.0, 90.0, 40.0);
            Classify([logo], MatchOutcome(Some("Acme"), Some("['acme.com']"), Some(logo), Some("0.93")),
                     Tree([InputElement(None, Some("password"), None)]), "0.12", "0.34")
            == Done(Verdict(Phishing, Some("Acme"), Some("['acme.com']"), Some("0.93"), [logo], "0.12", "0.34"))
  {
    LoginPage();
  }

  /** A brand logo on a page with only hidden and search inputs stays benign, with the matcher's values. */
  lemma BrandOnSearchPageIsBenign()
    ensures var logo := Box(10.0, 10.0, 90.0, 40.0);
            var page := Tree([InputElement(Some("hidden"), Some("csrf"), None), InputElement(None, Some("search_query"), None)]);
            Classify([logo], MatchOutcome(Some("Acme"), Some("['acme.com']"), Some(logo), Some("0.93")), page, "0.12", "0.34")
            == Done(Verdict(Benign, Some("Acme"), Some("['acme.com']"), Some("0.93"), [logo], "0.12", "0.34"))
  {
    HiddenAndSearchOnlyPage();
  }
}
