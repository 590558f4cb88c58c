/** The page as an explicit state and every user action of the page as a
    pure transition over it. The recipe-search request is not performed:
    its outcome is an input of the search transition. */
module App {
  import opened Optional
  import opened Decimal
  import JsText
  import opened Recipes
  import opened Testimonials

  /** The banner's style class. */
  datatype MessageKind = Info | Warning | Error

  /** The message banner: its text, its style and whether it is displayed. */
  datatype Banner = Banner(text: string, kind: MessageKind, visible: bool)

  /** Everything the page logic reads or writes: loader, banner, results
      title, the recipe cards of the results container, the testimonial
      grid, and the `active` class of the nav links and of the hamburger. */
  datatype Page = Page(
    loaderVisible: bool,
    message: Banner,
    resultsTitleVisible: bool,
    cards: seq<Card>,
    testimonials: seq<Testimonial>,
    navActive: bool,
    hamburgerActive: bool)

  const EmptyInputText := "Please enter at least one ingredient."
  const QuotaText := "API request limit reached. Please try again tomorrow."
  const HttpErrorPrefix := "HTTP error! status: "
  const NoRecipesText := "No recipes found with these ingredients. Try different ones!"
  const QuotaStatus := 402

  // ---------------------------------------------------------------------
  // Show/hide helpers

  // Each helper writes one element of the page and leaves the rest alone.

  function ShowLoader(p: Page): (q: Page)
    ensures q.loaderVisible && q == p.(loaderVisible := q.loaderVisible)
  {
    p.(loaderVisible := true)
  }

  function HideLoader(p: Page): (q: Page)
    ensures !q.loaderVisible && q == p.(loaderVisible := q.loaderVisible)
  {
    p.(loaderVisible := false)
  }

  /** Overwrites text and style and displays the banner. */
  function ShowMessage(p: Page, text: string, kind: MessageKind): (q: Page)
    ensures q.message.visible && q.message.text == text && q.message.kind == kind
    ensures q == p.(message := q.message)
  {
    p.(message := Banner(text, kind, true))
  }

  /** Hides the banner; its text and style stay as they were. */
  function HideMessage(p: Page): (q: Page)
    ensures !q.message.visible && q.message.text == p.message.text && q.message.kind == p.message.kind
    ensures q == p.(message := q.message)
  {
    p.(message := p.message.(visible := false))
  }

  function ShowResultsTitle(p: Page): (q: Page)
    ensures q.resultsTitleVisible && q == p.(resultsTitleVisible := q.resultsTitleVisible)
  {
    p.(resultsTitleVisible := true)
  }

  function HideResultsTitle(p: Page): (q: Page)
    ensures !q.resultsTitleVisible && q == p.(resultsTitleVisible := q.resultsTitleVisible)
  {
    p.(resultsTitleVisible := false)
  }

  /** Each helper sets a state rather than flipping it: doing it twice is
      doing it once. */
  lemma HelpersIdempotent(p: Page, text: string, kind: MessageKind)
    ensures ShowLoader(ShowLoader(p)) == ShowLoader(p)
    ensures HideLoader(HideLoader(p)) == HideLoader(p)
    ensures ShowMessage(ShowMessage(p, text, kind), text, kind) == ShowMessage(p, text, kind)
    ensures HideMessage(HideMessage(p)) == HideMessage(p)
    ensures ShowResultsTitle(ShowResultsTitle(p)) == ShowResultsTitle(p)
    ensures HideResultsTitle(HideResultsTitle(p)) == HideResultsTitle(p)
  {
  }

  // ---------------------------------------------------------------------
  // The outcome of the recipe-search request

  /** The response body: the parsed recipe array, or the error `json()`
      rejects with. */
  datatype Body = RecipeList(recipes: seq<Recipe>) | Unparsable(reason: string)

  /** What the awaited `fetch` produced: a response with its HTTP status,
      or a rejection (network failure) with its error message. */
  datatype FetchOutcome = Response(status: nat, body: Body) | NetworkFailure(reason: string)

  /** `response.ok`. */
  predicate IsOk(status: nat) {
    200 <= status <= 299
  }

  /** Reads the status code back out of a generic HTTP error message. */
  function ParseHttpErrorStatus(msg: string): Option<nat> {
    if JsText.StartsWith(msg, HttpErrorPrefix) && Canonical(msg[|HttpErrorPrefix|..])
    then Some(ToNat(msg[|HttpErrorPrefix|..]))
    else None
  }

  /** The generic message names its status: the status reads back. */
  lemma GenericStatusReadsBack(status: nat)
    ensures ParseHttpErrorStatus(HttpErrorPrefix + FromNat(status)) == Some(status)
  {
    var msg := HttpErrorPrefix + FromNat(status);
    assert msg[..|HttpErrorPrefix|] == HttpErrorPrefix;
    assert msg[|HttpErrorPrefix|..] == FromNat(status);
    ToNatFromNat(status);
  }

  /** The quota message is not a generic message: it ends in a full stop,
      not a digit. */
  lemma QuotaNotGeneric()
    ensures ParseHttpErrorStatus(QuotaText) == None
  {
    var tail := QuotaText[|HttpErrorPrefix|..];
    assert tail[|tail| - 1] == QuotaText[|QuotaText| - 1] == '.';
  }

  /** The message of the error thrown for a non-ok status, or None when the
      status is ok. Only non-ok statuses raise an error; 402 raises the quota
      message, which is not a generic message; every other status raises a
      generic message from which the status reads back. */
  function StatusError(status: nat): (e: Option<string>)
    ensures e.None? <==> IsOk(status)
    ensures status == QuotaStatus ==> e == Some(QuotaText) && ParseHttpErrorStatus(e.value) == None
    ensures !IsOk(status) && status != QuotaStatus ==>
      && e.Some?
      && JsText.StartsWith(e.value, HttpErrorPrefix)
      && ParseHttpErrorStatus(e.value) == Some(status)
  {
    QuotaNotGeneric();
    GenericStatusReadsBack(status);
    JsText.PrefixOfJoin(HttpErrorPrefix, FromNat(status));
    if IsOk(status) then None
    else if status == QuotaStatus then Some(QuotaText)
    else Some(HttpErrorPrefix + FromNat(status))
  }

  /** The error message the catch block shows, or None when the outcome
      reaches `displayRecipes`: a rejected fetch fails with its own message;
      a response fails exactly when its status is not ok (with the status
      error) or its body does not parse (with the parser's message). */
  function FailureMessage(o: FetchOutcome): (m: Option<string>)
    ensures o.NetworkFailure? ==> m == Some(o.reason)
    ensures o.Response? ==> (m.Some? <==> !IsOk(o.status) || o.body.Unparsable?)
    ensures o.Response? && !IsOk(o.status) ==> m == StatusError(o.status)
    ensures o.Response? && IsOk(o.status) && o.body.Unparsable? ==> m == Some(o.body.reason)
  {
    match o
    case NetworkFailure(reason) => Some(reason)
    case Response(status, body) =>
      if StatusError(status).Some? then StatusError(status)
      else if body.Unparsable? then Some(body.reason)
      else None
  }

  // ---------------------------------------------------------------------
  // Search

  /** `displayRecipes`: hide the loader, show the results title, then either
      the no-results info message or one card per recipe appended to the
      container; the banner of a non-empty result and the rest of the page
      are kept. */
  function DisplayRecipes(p: Page, recipes: seq<Recipe>): (q: Page)
    ensures !q.loaderVisible && q.resultsTitleVisible
    ensures |recipes| == 0 ==> q.message == Banner(NoRecipesText, Info, true) && q.cards == p.cards
    ensures |recipes| > 0 ==>
      && q.message == p.message
      && |q.cards| == |p.cards| + |recipes|
      && q.cards[..|p.cards|] == p.cards
      && (forall i :: 0 <= i < |recipes| ==> q.cards[|p.cards| + i] == CardFor(recipes[i]))
    ensures q.testimonials == p.testimonials
    ensures q.navActive == p.navActive && q.hamburgerActive == p.hamburgerActive
  {
    var shown := ShowResultsTitle(HideLoader(p));
    if |recipes| == 0 then ShowMessage(shown, NoRecipesText, Info)
    else shown.(cards := shown.cards + Cards(recipes))
  }

  /** The catch block: hide the loader and show the error's message as an
      error; nothing else changes. */
  function ShowError(p: Page, text: string): (q: Page)
    ensures !q.loaderVisible && q.message == Banner(text, Error, true)
    ensures q == p.(loaderVisible := false, message := q.message)
  {
    ShowMessage(HideLoader(p), text, Error)
  }

  /** The page just before the request is awaited: the banner hidden (its
      text and style kept), the loader shown, the cards emptied and the
      results title hidden, with nothing else changed. */
  function PrepareSearch(p: Page): (q: Page)
    ensures !q.message.visible && q.message.text == p.message.text && q.message.kind == p.message.kind
    ensures q.loaderVisible
    ensures q.cards == []
    ensures !q.resultsTitleVisible
    ensures q.testimonials == p.testimonials
    ensures q.navActive == p.navActive && q.hamburgerActive == p.hamburgerActive
  {
    HideResultsTitle(ShowLoader(HideMessage(p)).(cards := []))
  }

  /** The rest of `fetchRecipes` once the request has produced `o`: the
      loader ends hidden; a failure shows its message as an error and keeps
      the cards and the title; a success renders the parsed recipes. */
  function Settle(p: Page, o: FetchOutcome): (q: Page)
    ensures !q.loaderVisible
    ensures FailureMessage(o).Some? ==>
      && q.message == Banner(FailureMessage(o).value, Error, true)
      && q.cards == p.cards
      && q.resultsTitleVisible == p.resultsTitleVisible
    ensures FailureMessage(o).None? ==>
      && o.Response? && o.body.RecipeList?
      && q == DisplayRecipes(p, o.body.recipes)
    ensures q.testimonials == p.testimonials
    ensures q.navActive == p.navActive && q.hamburgerActive == p.hamburgerActive
  {
    match o
    case NetworkFailure(reason) => ShowError(p, reason)
    case Response(status, body) =>
      match StatusError(status)
      case Some(msg) => ShowError(p, msg)
      case None =>
        match body
        case Unparsable(reason) => ShowError(p, reason)
        case RecipeList(rs) => DisplayRecipes(p, rs)
  }

  /** A transition's new page, and the ingredient string of the request it
      issued (None when it issued none). */
  datatype SearchStep = SearchStep(page: Page, request: Option<string>)

  /** `fetchRecipes(ingredients)`, with `o` standing for whatever the request
      (if one is issued) produces. An empty string only shows the warning;
      any other string is requested as it is, and the search ends with the
      loader hidden and an error banner exactly when the outcome failed. */
  function FetchRecipes(p: Page, ingredients: string, o: FetchOutcome): (step: SearchStep)
    ensures step.request.None? <==> ingredients == []
    ensures ingredients == [] ==>
      && step.page.message == Banner(EmptyInputText, Warning, true)
      && step.page == p.(message := step.page.message)
    ensures ingredients != [] ==>
      && step.request == Some(ingredients)
      && step.page == Settle(PrepareSearch(p), o)
      && !step.page.loaderVisible
      && (step.page.message.visible && step.page.message.kind == Error <==> FailureMessage(o).Some?)
      && step.page.testimonials == p.testimonials
  {
    if ingredients == [] then SearchStep(ShowMessage(p, EmptyInputText, Warning), None)
    else SearchStep(Settle(PrepareSearch(p), o), Some(ingredients))
  }

  /** The search button's click handler. A request is issued exactly when
      the input holds a visible character, and it carries the trimmed
      input. */
  function OnSearchClick(p: Page, inputValue: string, o: FetchOutcome): (step: SearchStep)
    ensures step.request.None? <==> JsText.AllWhitespace(inputValue)
    ensures step.request.Some? ==> step.request.value == JsText.Trim(inputValue)
  {
    JsText.TrimEmptyIff(inputValue);
    FetchRecipes(p, JsText.Trim(inputValue), o)
  }

  /** The ingredient input's keypress handler: on Enter it trims the input
      and searches; any other key does nothing. Enter is therefore exactly
      the search button. */
  function OnInputKeyPress(p: Page, key: string, inputValue: string, o: FetchOutcome): (step: SearchStep)
    ensures key == "Enter" ==> step == OnSearchClick(p, inputValue, o)
    ensures key != "Enter" ==> step == SearchStep(p, None)
  {
    if key == "Enter" then FetchRecipes(p, JsText.Trim(inputValue), o) else SearchStep(p, None)
  }

  /** A blank input only shows the warning: no request, whatever the
      network would have answered, and loader, cards, results title,
      testimonials and nav stay as they were. */
  lemma BlankSearchWarns(p: Page, inputValue: string, o: FetchOutcome, other: FetchOutcome)
    requires JsText.AllWhitespace(inputValue)
    ensures var step := OnSearchClick(p, inputValue, o);
      && step.request == None
      && step.page.message == Banner(EmptyInputText, Warning, true)
      && step.page.loaderVisible == p.loaderVisible
      && step.page.cards == p.cards
      && step.page.resultsTitleVisible == p.resultsTitleVisible
      && step.page.testimonials == p.testimonials
      && step.page.navActive == p.navActive && step.page.hamburgerActive == p.hamburgerActive
      && step == OnSearchClick(p, inputValue, other)
  {
    JsText.TrimEmptyIff(inputValue);
  }

  /** A non-blank search consumes the outcome only after preparing the
      page, whatever the outcome. */
  lemma SearchPreparesPage(p: Page, inputValue: string, o: FetchOutcome)
    requires !JsText.AllWhitespace(inputValue)
    ensures OnSearchClick(p, inputValue, o).page == Settle(PrepareSearch(p), o)
    ensures !OnSearchClick(p, inputValue, o).page.loaderVisible
  {
    JsText.TrimEmptyIff(inputValue);
  }

  /** Every failure ends with the loader hidden, no results, no results
      title, and the failure's message shown as an error. */
  lemma SearchFailureShowsError(p: Page, inputValue: string, o: FetchOutcome)
    requires !JsText.AllWhitespace(inputValue)
    requires FailureMessage(o).Some?
    ensures var q := OnSearchClick(p, inputValue, o).page;
      && !q.loaderVisible
      && q.message == Banner(FailureMessage(o).value, Error, true)
      && q.cards == []
      && !q.resultsTitleVisible
      && q.testimonials == p.testimonials
  {
    JsText.TrimEmptyIff(inputValue);
    var q := PrepareSearch(p);
    assert OnSearchClick(p, inputValue, o).page == Settle(q, o);
  }

  /** The three failure messages: the quota message for 402, the generic
      message naming the status for every other non-ok status, and the
      rejection's own message for a network failure. */
  lemma FailureMessages(status: nat, body: Body, reason: string)
    ensures status == QuotaStatus ==> FailureMessage(Response(status, body)) == Some(QuotaText)
    ensures !IsOk(status) && status != QuotaStatus ==>
      && FailureMessage(Response(status, body)) == Some(HttpErrorPrefix + FromNat(status))
      && ParseHttpErrorStatus(FailureMessage(Response(status, body)).value) == Some(status)
    ensures FailureMessage(NetworkFailure(reason)) == Some(reason)
    ensures IsOk(status) ==> (FailureMessage(Response(status, body)).Some? <==> body.Unparsable?)
  {
  }

  /** An ok response with no recipes: loader hidden, title shown, no cards,
      and the no-results info message. */
  lemma SearchNoRecipes(p: Page, inputValue: string, status: nat)
    requires !JsText.AllWhitespace(inputValue)
    requires IsOk(status)
    ensures var q := OnSearchClick(p, inputValue, Response(status, RecipeList([]))).page;
      && !q.loaderVisible
      && q.resultsTitleVisible
      && q.cards == []
      && q.message == Banner(NoRecipesText, Info, true)
  {
    JsText.TrimEmptyIff(inputValue);
    var o := Response(status, RecipeList([]));
    var q := PrepareSearch(p);
    assert OnSearchClick(p, inputValue, o).page == Settle(q, o);
  }

  /** An ok response with N recipes: exactly N cards, card i built from
      recipe i, the banner still hidden, loader hidden and title shown. */
  lemma SearchShowsRecipes(p: Page, inputValue: string, status: nat, rs: seq<Recipe>)
    requires !JsText.AllWhitespace(inputValue)
    requires IsOk(status) && |rs| > 0
    ensures var q := OnSearchClick(p, inputValue, Response(status, RecipeList(rs))).page;
      && !q.loaderVisible
      && q.resultsTitleVisible
      && !q.message.visible
      && |q.cards| == |rs|
      && (forall i :: 0 <= i < |rs| ==> q.cards[i] == CardFor(rs[i]))
  {
    JsText.TrimEmptyIff(inputValue);
    var o := Response(status, RecipeList(rs));
    var q := PrepareSearch(p);
    assert OnSearchClick(p, inputValue, o).page == Settle(q, o);
  }

  /** Whatever the outcome, a non-blank search never leaves the loader on,
      and the banner is an error exactly when the outcome failed. */
  lemma SearchSettles(p: Page, inputValue: string, o: FetchOutcome)
    requires !JsText.AllWhitespace(inputValue)
    ensures var q := OnSearchClick(p, inputValue, o).page;
      && !q.loaderVisible
      && (q.message.visible && q.message.kind == Error <==> FailureMessage(o).Some?)
      && (q.cards != [] ==> q.resultsTitleVisible && FailureMessage(o).None?)
  {
    JsText.TrimEmptyIff(inputValue);
    var q := PrepareSearch(p);
    assert OnSearchClick(p, inputValue, o).page == Settle(q, o);
    SettleFromPrepared(q, o);
  }

  /** `Settle` from a prepared page: banner hidden, no cards, loader on. */
  lemma SettleFromPrepared(q: Page, o: FetchOutcome)
    requires !q.message.visible && q.cards == []
    ensures var r := Settle(q, o);
      && !r.loaderVisible
      && (r.message.visible && r.message.kind == Error <==> FailureMessage(o).Some?)
      && (r.cards != [] ==> r.resultsTitleVisible && FailureMessage(o).None?)
  {
  }

  // ---------------------------------------------------------------------
  // Reviews and testimonials

  /** The author name of a submission: the trimmed name field, or
      "Anonymous" when that is empty. */
  function AuthorName(nameValue: string): (name: string)
    ensures !JsText.AllWhitespace(name)
    ensures JsText.AllWhitespace(nameValue) ==> name == AnonymousName
    ensures !JsText.AllWhitespace(nameValue) ==> name == JsText.Trim(nameValue)
  {
    JsText.TrimEmptyIff(nameValue);
    var trimmed := JsText.Trim(nameValue);
    assert trimmed != [] ==> !JsText.IsWhitespace(trimmed[0]);
    assert AnonymousName[0] == 'A';
    if trimmed == [] then AnonymousName else trimmed
  }

  /** The review form's submit handler, `now` being the clock reading used
      for the avatar seed. A review that is blank after trimming changes
      nothing; any other appends exactly one non-static card at the end with
      the trimmed review, the author name, the gender and its avatar
      parameter, and keeps earlier cards and the rest of the page. */
  function SubmitReview(p: Page, reviewValue: string, nameValue: string, gender: string, now: nat): (q: Page)
    ensures JsText.AllWhitespace(reviewValue) ==> q == p
    ensures !JsText.AllWhitespace(reviewValue) ==>
      var n := |p.testimonials|;
      && |q.testimonials| == n + 1
      && q.testimonials[..n] == p.testimonials
      && q.testimonials[n].review == JsText.Trim(reviewValue)
      && q.testimonials[n].name == AuthorName(nameValue)
      && q.testimonials[n].gender == gender
      && q.testimonials[n].avatar.genderParam == GenderParam(gender)
      && !q.testimonials[n].isStatic
      && q == p.(testimonials := q.testimonials)
  {
    JsText.TrimEmptyIff(reviewValue);
    var review := JsText.Trim(reviewValue);
    if review == [] then p
    else p.(testimonials := p.testimonials + [MakeTestimonial(AuthorName(nameValue), review, gender, false, now)])
  }

  /** A review such as "Great!" (no white space at its ends) submitted with
      a blank name field is shown verbatim above "- Anonymous". */
  lemma AnonymousReview(p: Page, reviewValue: string, nameValue: string, gender: string, now: nat)
    requires reviewValue != []
    requires !JsText.IsWhitespace(reviewValue[0]) && !JsText.IsWhitespace(reviewValue[|reviewValue| - 1])
    requires JsText.AllWhitespace(nameValue)
    ensures var q := SubmitReview(p, reviewValue, nameValue, gender, now);
      && |q.testimonials| == |p.testimonials| + 1
      && AuthorLabel(q.testimonials[|p.testimonials|]) == "- Anonymous"
      && q.testimonials[|p.testimonials|].review == reviewValue
  {
    JsText.TrimVisible(reviewValue);
    var t := MakeTestimonial(AuthorName(nameValue), reviewValue, gender, false, now);
    assert SubmitReview(p, reviewValue, nameValue, gender, now).testimonials == p.testimonials + [t];
    AnonymousLabel(t);
  }

  lemma AnonymousLabel(t: Testimonial)
    requires t.name == AnonymousName
    ensures AuthorLabel(t) == "- Anonymous"
  {
  }

  /** Submitting never shows a blank author or a blank quote. */
  lemma ReviewKeepsWellFormed(p: Page, reviewValue: string, nameValue: string, gender: string, now: nat)
    requires AllWellFormed(p.testimonials)
    ensures AllWellFormed(SubmitReview(p, reviewValue, nameValue, gender, now).testimonials)
  {
    var review := JsText.Trim(reviewValue);
    if review != [] {
      assert !JsText.IsWhitespace(review[0]);
      var t := MakeTestimonial(AuthorName(nameValue), review, gender, false, now);
      assert WellFormed(t);
      AppendWellFormed(p.testimonials, t);
    }
  }

  lemma AppendWellFormed(ts: seq<Testimonial>, t: Testimonial)
    requires AllWellFormed(ts) && WellFormed(t)
    ensures AllWellFormed(ts + [t])
  {
  }

  /** The page-load step; `now0`..`now2` are the clock readings. The grid
      becomes exactly Priya S., Ankit R. and Sarah J., static and well
      formed, whatever it held, and nothing else on the page changes. */
  function LoadStatic(p: Page, now0: nat, now1: nat, now2: nat): (q: Page)
    ensures |q.testimonials| == 3
    ensures q.testimonials[0].name == "Priya S."
    ensures q.testimonials[1].name == "Ankit R."
    ensures q.testimonials[2].name == "Sarah J."
    ensures q.testimonials[0].isStatic && q.testimonials[1].isStatic && q.testimonials[2].isStatic
    ensures AllWellFormed(q.testimonials)
    ensures q.testimonials == StaticTestimonials(now0, now1, now2)
    ensures q == p.(testimonials := q.testimonials)
  {
    p.(testimonials := StaticTestimonials(now0, now1, now2))
  }

  // ---------------------------------------------------------------------
  // Navigation

  /** The hamburger's click handler: toggle `active` on both elements. Both
      flags flip and nothing else changes. */
  function ToggleNav(p: Page): (q: Page)
    ensures q.navActive != p.navActive && q.hamburgerActive != p.hamburgerActive
    ensures q == p.(navActive := q.navActive, hamburgerActive := q.hamburgerActive)
  {
    p.(navActive := !p.navActive, hamburgerActive := !p.hamburgerActive)
  }

  /** Toggling keeps the two flags in step if they were, and toggling twice
      restores the page. */
  lemma ToggleNavInvolution(p: Page)
    ensures (ToggleNav(p).navActive == ToggleNav(p).hamburgerActive) <==> (p.navActive == p.hamburgerActive)
    ensures ToggleNav(ToggleNav(p)) == p
  {
  }

  // ---------------------------------------------------------------------
  // The page as a whole

  /** A user action, with what the environment supplies for it. */
  datatype Event =
    | SearchClicked(inputValue: string, outcome: FetchOutcome)
    | KeyPressed(key: string, inputValue: string, outcome: FetchOutcome)
    | ReviewSubmitted(reviewValue: string, nameValue: string, gender: string, now: nat)
    | HamburgerClicked

  function Step(p: Page, e: Event): Page {
    match e
    case SearchClicked(v, o) => OnSearchClick(p, v, o).page
    case KeyPressed(k, v, o) => OnInputKeyPress(p, k, v, o).page
    case ReviewSubmitted(r, n, g, t) => SubmitReview(p, r, n, g, t)
    case HamburgerClicked => ToggleNav(p)
  }

  function Run(p: Page, events: seq<Event>): Page
    decreases |events|
  {
    if events == [] then p else Run(Step(p, events[0]), events[1..])
  }

  /** A page at rest: no loader, results only under a visible results
      title, and only non-blank testimonials. */
  predicate AtRest(p: Page) {
    && !p.loaderVisible
    && (p.cards != [] ==> p.resultsTitleVisible)
    && AllWellFormed(p.testimonials)
  }

  /** Every action takes a page at rest to a page at rest. */
  lemma StepKeepsAtRest(p: Page, e: Event)
    requires AtRest(p)
    ensures AtRest(Step(p, e))
  {
    match e
    case SearchClicked(v, o) =>
      SearchStepKeepsAtRest(p, v, o);
    case KeyPressed(k, v, o) =>
      SearchStepKeepsAtRest(p, v, o);
    case ReviewSubmitted(r, n, g, t) =>
      ReviewKeepsWellFormed(p, r, n, g, t);
      assert SubmitReview(p, r, n, g, t) == p.(testimonials := SubmitReview(p, r, n, g, t).testimonials);
    case HamburgerClicked =>
  }

  lemma SearchStepKeepsAtRest(p: Page, inputValue: string, o: FetchOutcome)
    requires AtRest(p)
    ensures AtRest(OnSearchClick(p, inputValue, o).page)
  {
    if JsText.AllWhitespace(inputValue) {
      BlankSearchWarns(p, inputValue, o, o);
    } else {
      SearchSettles(p, inputValue, o);
      SearchPreparesPage(p, inputValue, o);
      assert OnSearchClick(p, inputValue, o).page.testimonials == p.testimonials;
    }
  }

  /** Any sequence of actions from a page at rest — in particular from the
      freshly loaded page — ends at rest. */
  lemma {:induction false} RunKeepsAtRest(p: Page, events: seq<Event>)
    requires AtRest(p)
    ensures AtRest(Run(p, events))
    decreases |events|
  {
    if events != [] {
      StepKeepsAtRest(p, events[0]);
      RunKeepsAtRest(Step(p, events[0]), events[1..]);
    }
  }

  /** The freshly loaded page (loader hidden, no results yet) is at rest. */
  lemma LoadedPageAtRest(p: Page, now0: nat, now1: nat, now2: nat)
    requires !p.loaderVisible && p.cards == []
    ensures AtRest(LoadStatic(p, now0, now1, now2))
  {
  }
}
