# FlavorFinder page logic in Dafny

FlavorFinder is a single-page front end: the user types ingredients, the page
asks the Spoonacular recipe-search API for matching recipes and shows them as
cards; it also keeps a client-side list of testimonials (three built-in ones
plus those submitted through a review form) and a mobile nav toggle.

This project models the decision layer of `script.js` as a sequential state
machine over an explicit, immutable page state (`App.Page`): loader
visibility, the message banner (text, `info`/`warning`/`error` style,
visibility), results-title visibility, the recipe cards, the testimonials and
the two nav `active` flags. Every handler is a pure transition:

- `App.OnSearchClick` / `App.OnInputKeyPress` → `App.FetchRecipes`: trims the
  input, applies the empty-input guard, prepares the page, classifies the HTTP
  status, and either renders (`App.DisplayRecipes`) or shows the error.
  The network call is not performed: its outcome (`App.FetchOutcome`: a response
  with status and parsed body, or a rejected fetch with its message) is an
  input of the transition.
- `Recipes.CardFor` / `Recipes.Cards`: the card of each recipe — link built
  from the slugged title and the id, image, title and the ingredient sentence.
- `App.SubmitReview`, `Testimonials.MakeTestimonial`: the review form's
  handler and `addTestimonial`, including the avatar seed and gender parameter
  (the clock reading is a parameter).
- `App.LoadStatic`, `Testimonials.StaticTestimonials`: `loadStaticTestimonials`.
- `App.ToggleNav`: the hamburger handler.
- `App.Step` / `App.Run`: the handlers as one event dispatcher, with the
  page-at-rest invariant (`App.AtRest`) proved over any sequence of events.

Supporting modules: `Decimal` (decimal text of integers, as template literals
write integral numbers, and its inverse), `JsText` (`trim()`,
`replace(/\s/g, '-')`, `split(' ')[0]` with ECMAScript's white-space set),
`Optional`.

Details of the code the model keeps:
- `displayRecipes` appends cards to the container (`appendChild`); the search
  path empties the container first, so a search shows only its own results.
- Hiding the banner keeps its text and style; only showing it rewrites them.
- A body that `response.json()` rejects is a failure like a network failure:
  its message is shown as an error. The 402 and generic status errors are
  raised before the body is read.
- The gender sent to the avatar service is whatever the form's select holds;
  the parameter is added only for exactly `male` or `female`.

## Model

| member | source | states |
|---|---|---|
| Decimal.FromNat | script.js:157 | the text of a count is a non-empty decimal numeral with no superfluous leading zero |
| Decimal.ToNatFromNat | script.js:120 | reading the numeral of n back gives n |
| Decimal.FromNatToNat | script.js:120 | every canonical numeral is the numeral of its value, so numerals and numbers correspond one to one |
| Decimal.FromNatInjective | script.js:148 | distinct numbers (status codes, ids, counts) get distinct numerals, and only they |
| JsText.TrimStart | script.js:55 | the result is a suffix of the input, everything cut off is white space, and it does not start with white space |
| JsText.TrimEnd | script.js:55 | the result is a prefix of the input, everything cut off is white space, and it does not end with white space |
| JsText.Trim | script.js:55 | the result is an infix of the input surrounded only by white space, with non-white-space ends |
| JsText.TrimEmptyIff | script.js:100 | the trimmed input is empty (falsy) exactly when the input is all white space |
| JsText.TrimUnique | script.js:71 | any white-space-padded infix with non-white-space ends is the trim: trim is uniquely determined |
| JsText.TrimIdempotent | script.js:72 | trimming a trimmed string changes nothing |
| JsText.Slug | script.js:148 | same length as the title, a hyphen at every white-space position, the title's character at every other, and no white space at all |
| JsText.FirstWord | script.js:190 | the name's prefix up to (not including) the first space, or the whole name when it has none |
| Recipes.IngredientsMessage | script.js:157-162 | the ingredient sentence determines both counts: parsing it, with numerals as a template literal prints them (no leading zeros), gives back the used and missed counts |
| Recipes.IngredientsMessageInjective | script.js:157-162 | two recipes get the same sentence exactly when both counts agree |
| Recipes.RecipeLink | script.js:148 | the link is the recipe-page base, then the title with white space turned into hyphens position by position, then a hyphen, then the id's numeral, from which the id reads back |
| Recipes.CardFor | script.js:148-168 | the card shows the record's title and image, its link is the record's recipe link (base, slugged title, hyphen, id), and its sentence is the record's ingredient sentence: it starts "You have ", carries the used and missed counts, and ends with the all-ingredients cheer exactly when nothing is missing |
| Recipes.Cards | script.js:145-172 | one card per recipe, card i built from recipe i, in input order |
| Testimonials.AvatarSeed | script.js:190 | the seed is the name's first word (up to its first space) followed by the clock reading's canonical numeral, holds no space, and its tail reads back to the clock value |
| Testimonials.MakeTestimonial | script.js:186-203 | the card keeps the given name, review, gender and static flag; its gender parameter is that of the gender, present only for `male` and `female`; the avatar seed is the name's first word and the clock's canonical numeral; the card is well formed exactly when name and review are not blank |
| Testimonials.StaticTestimonials | script.js:28-44 | three static entries, Priya S. (female), Ankit R. (male), Sarah J. (female), with their reviews, each requesting an avatar of its gender, each with a non-blank name and review, whatever the clock says |
| Testimonials.GenderParam | script.js:191-194 | the gender parameter is present exactly for `male` and `female`, and then is `&gender=` followed by the value |
| Testimonials.AuthorLabel | script.js:203 | the author line is "- " followed by the name, and nothing else |
| App.ShowLoader | script.js:232-234 | the loader is shown and nothing else changes |
| App.HideLoader | script.js:236-238 | the loader is hidden and nothing else changes |
| App.ShowMessage | script.js:240-244 | the banner shows the given text in the given style, and nothing else changes |
| App.HideMessage | script.js:246-248 | the banner is hidden with its text and style kept, and nothing else changes |
| App.ShowResultsTitle | script.js:250-252 | the results title is shown and nothing else changes |
| App.HideResultsTitle | script.js:254-256 | the results title is hidden and nothing else changes |
| App.HelpersIdempotent | script.js:232-256 | each show/hide helper sets a state, so applying it twice equals applying it once |
| App.StatusError | script.js:115-121 | a status raises an error exactly when it is not 2xx; 402 gives the quota message, which is not a generic one; any other non-ok status gives a message starting "HTTP error! status: " from which the status reads back |
| App.GenericStatusReadsBack | script.js:120 | the generic message of any status reads back to that status |
| App.QuotaNotGeneric | script.js:118 | the quota message cannot be read as a generic status message |
| App.FailureMessage | script.js:113-128 | a rejected fetch fails with its own message; a response fails exactly when its status is not 2xx (with the status error) or its body does not parse (with the parser's message) |
| App.FailureMessages | script.js:115-128 | the banner text on failure: exactly the quota text for 402, "HTTP error! status: " plus the status for other non-ok statuses, the rejection's own message for a network failure; an ok status fails only on an unparsable body |
| App.BlankSearchWarns | script.js:99-103 | a blank input shows the warning banner, issues no request, ignores the network, and leaves loader, cards, results title, testimonials and nav unchanged |
| App.DisplayRecipes | script.js:136-173 | the loader ends hidden and the title shown; no recipes shows the no-results info message and adds no card; otherwise one card per recipe is appended after the existing ones in input order, the banner untouched; testimonials and nav are kept |
| App.ShowError | script.js:125-128 | the catch block hides the loader and shows the message as an error banner, and nothing else changes |
| App.PrepareSearch | script.js:105-109 | before the outcome is consumed the banner is hidden with its text and style kept, the loader shown, the cards emptied and the results title hidden, with nothing else changed |
| App.Settle | script.js:113-130 | the loader ends hidden; a failure shows its message as an error banner and leaves cards and title as they were; a success renders the parsed recipes; testimonials and nav are kept |
| App.FetchRecipes | script.js:99-130 | an empty ingredient string shows only the warning, issues no request and changes nothing else; any other is requested unchanged, after the page is prepared, and ends with the loader hidden and an error banner exactly when the outcome failed |
| App.OnSearchClick | script.js:54-57 | a request is issued exactly when the input is not all white space, and it carries the trimmed input |
| App.OnInputKeyPress | script.js:59-65 | Enter in the input searches exactly as the search button does; any other key changes nothing and issues no request |
| App.SearchPreparesPage | script.js:105-124 | a non-blank search consumes the outcome on the prepared page, whatever the outcome, and never leaves the loader on |
| App.SearchFailureShowsError | script.js:125-129 | every failure ends with the loader hidden, no cards, the results title hidden and the failure's message shown as an error |
| App.SearchNoRecipes | script.js:136-143 | an ok response with no recipes hides the loader, shows the title, leaves no cards and shows the no-results info message |
| App.SearchShowsRecipes | script.js:136-172 | an ok response with N recipes gives exactly N cards in input order, loader hidden, title shown and the banner still hidden |
| App.SearchSettles | script.js:113-143 | whatever the outcome the loader ends hidden, the banner is an error exactly when the outcome failed, and cards appear only under the shown title after a success |
| App.AuthorName | script.js:72 | the author is never blank: "Anonymous" for a blank name field, the trimmed name otherwise |
| App.SubmitReview | script.js:68-80 | a review blank after trimming changes nothing; any other appends exactly one non-static card at the end with the trimmed review, the author name, the gender and its avatar parameter, with earlier cards and the rest of the page unchanged |
| App.AnonymousReview | script.js:72 | a review like "Great!" submitted with a blank name is shown verbatim above "- Anonymous" |
| App.ReviewKeepsWellFormed | script.js:71-76 | submitting keeps every testimonial's name and review non-blank |
| App.LoadStatic | script.js:224-229 | whatever the grid held, it becomes exactly the three built-in entries (Priya S., Ankit R., Sarah J., with their reviews, genders and gender parameters), static and non-blank, and nothing else changes |
| App.ToggleNav | script.js:48-51 | both `active` flags flip and nothing else on the page changes |
| App.ToggleNavInvolution | script.js:48-51 | toggling keeps the two flags in step when they were, and toggling twice restores the page |
| App.StepKeepsAtRest | script.js:46-80 | every user action takes a page at rest (no loader, cards only under the title, non-blank testimonials) to a page at rest |
| App.RunKeepsAtRest | script.js:46-80 | any sequence of user actions from a page at rest ends at rest |
| App.LoadedPageAtRest | script.js:258-259 | the page after the initial load of the built-in testimonials is at rest |

## Left out

- The request itself: `fetch`, the URL with its query string and API key, the
  result count 12, and `response.json()` parsing are external calls; their
  result is the `App.FetchOutcome` input.
- Response bodies that parse but are not an array of complete recipe records.
  A body without a `length` (`null`, a number, a plain object) throws at
  script.js:140 or 145, before any card is built. A body whose `length` is 0
  but is not an array, such as the JSON string `""`, does not throw: it shows
  the no-results info message. A record without `title` or
  `unusedIngredients` throws at script.js:148 or 155, after the earlier
  records' cards are appended. A record without a count, `id` or `image`
  does not throw: it renders the text `undefined`, as in "You have undefined
  of the ingredients.", a link ending in `-undefined`, and the
  all-ingredients cheer, since `undefined > 0` is false. Every throw inside
  `displayRecipes` is caught at script.js:125-128: the loader is hidden and
  the TypeError's message shown as an error banner, with the results title
  already shown (script.js:138) and the cards appended so far kept. The
  model's body is either an array of complete `Recipe` records or
  unparsable, so none of these paths is modelled.
- Strings are sequences of Unicode scalar values, not JavaScript's UTF-16 code
  units, so a lone surrogate cannot be written. In the code, a name whose
  first word holds a lone surrogate makes `encodeURIComponent` throw a
  `URIError` (script.js:196): no card is appended, and the form is not reset
  and no alert is shown. `App.SubmitReview` always appends for a non-blank
  review, which is the code's behaviour for every well-formed string.
- Numbers as JavaScript prints them beyond plain non-negative integers
  (fractions, negatives, exponent notation from 10^21): counts, ids, statuses
  and clock readings are `nat` and are printed in plain decimal.
- DOM creation and `innerHTML` templating (the card is a record of link,
  image, title and sentence; the testimonial a record of its fields), the
  image `onerror` fallback, and the absence of HTML escaping.
- Cosmetic timing: the per-card `animationDelay` (a float), the `setTimeout`
  fade-in of dynamic testimonials.
- `encodeURIComponent` of the avatar seed and the avatar URL around it: the
  model keeps the seed and gender parameter before encoding.
- `Date.now()`: the clock reading of each `addTestimonial` call is a parameter.
- `reviewForm.reset()`, the `alert` calls, `console.error`, the newsletter
  form (its validation is the browser's `checkValidity()`), and the
  meal-plans button: browser built-ins with no page state in the model.
- Overlapping searches and out-of-order responses: each transition is atomic
  here; the code has no guard against the race.
- App.LoadedPageAtRest: assumes the page starts with the loader hidden and the results container empty. That is the state of the page's markup, which is not part of this model; the script itself only calls `loadStaticTestimonials` on load (script.js:258-259).
