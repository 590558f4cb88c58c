/** The testimonial store: built-in entries, the cards `addTestimonial`
    appends, and the avatar request each card carries. */
module Testimonials {
  import Decimal
  import JsText

  /** The avatar request before URL encoding: the seed and the optional
      `&gender=` query parameter. */
  datatype Avatar = Avatar(seed: string, genderParam: string)

  /** One testimonial card. `gender` is the raw value of the form's select
      (or the built-in entry's); `isStatic` marks built-in entries, which
      are shown without the entrance animation. */
  datatype Testimonial = Testimonial(
    name: string,
    review: string,
    gender: string,
    isStatic: bool,
    avatar: Avatar)

  const AnonymousName := "Anonymous"
  const GenderKey := "&gender="

  /** The query parameter the avatar service gets for a gender value. */
  function GenderParam(gender: string): (p: string)
    ensures p != [] <==> gender == "male" || gender == "female"
    ensures p != [] ==> |p| > |GenderKey| && p[..|GenderKey|] == GenderKey && p[|GenderKey|..] == gender
  {
    if gender == "male" || gender == "female" then GenderKey + gender else ""
  }

  /** The avatar seed: the name up to its first space, then the clock
      reading `now` (milliseconds, as `Date.now()` returns) in decimal. It
      holds no space from the name, and its tail reads back to the clock. */
  function AvatarSeed(name: string, now: nat): (seed: string)
    ensures var w := JsText.FirstWord(name);
      && |w| <= |seed| && seed[..|w|] == w && w == name[..|w|]
      && (|w| == |name| || name[|w|] == ' ')
      && (forall i :: 0 <= i < |seed| ==> seed[i] != ' ')
      && Decimal.Canonical(seed[|w|..])
      && Decimal.ToNat(seed[|w|..]) == now
  {
    var w := JsText.FirstWord(name);
    var d := Decimal.FromNat(now);
    assert (w + d)[|w|..] == d;
    assert forall i :: |w| <= i < |w + d| ==> (w + d)[i] == d[i - |w|];
    Decimal.ToNatFromNat(now);
    w + d
  }

  /** The card `addTestimonial(name, review, gender, isStatic)` builds when
      the clock reads `now`: it shows the given name and review, asks for
      an avatar of the gender only for `male` and `female`, seeds it with
      the name's first word and the clock, and is well formed exactly when
      the name and the review are not blank. */
  function MakeTestimonial(name: string, review: string, gender: string, isStatic: bool, now: nat): (t: Testimonial)
    ensures t.name == name && t.review == review && t.gender == gender && t.isStatic == isStatic
    ensures t.avatar.genderParam == GenderParam(gender)
    ensures t.avatar.genderParam != [] <==> gender == "male" || gender == "female"
    ensures var w := JsText.FirstWord(name);
      && |w| <= |t.avatar.seed| && t.avatar.seed[..|w|] == w
      && Decimal.Canonical(t.avatar.seed[|w|..]) && Decimal.ToNat(t.avatar.seed[|w|..]) == now
    ensures WellFormed(t) <==> !JsText.AllWhitespace(name) && !JsText.AllWhitespace(review)
  {
    Testimonial(name, review, gender, isStatic, Avatar(AvatarSeed(name, now), GenderParam(gender)))
  }

  /** The author line under the quote: a dash and a space, then the name. */
  function AuthorLabel(t: Testimonial): (line: string)
    ensures |line| == |t.name| + 2
    ensures JsText.StartsWith(line, "- ") && line[2..] == t.name
  {
    "- " + t.name
  }

  // The reviews of the three built-in entries, in display order.
  const PriyaReview := "I've saved so much time and money using FlavorFinder. The recipes are fantastic and easy to follow. A must-have app for home cooks!"
  const AnkitReview := "This is a brilliant concept. I can finally use up all the random ingredients in my fridge without any waste. Highly recommended!"
  const SarahReview := "I love the clean design and the variety of recipes. It's so intuitive and has made cooking fun again for me and my family."

  /** `loadStaticTestimonials`: empty the grid, then add each built-in entry
      as static; `now0`..`now2` are the clock readings of the three calls.
      The result is three static cards in the order Priya S., Ankit R.,
      Sarah J., each asking for an avatar of its gender and each with a
      non-blank name and review, whatever the clock says. */
  function StaticTestimonials(now0: nat, now1: nat, now2: nat): (ts: seq<Testimonial>)
    ensures |ts| == 3
    ensures ts[0].name == "Priya S." && ts[1].name == "Ankit R." && ts[2].name == "Sarah J."
    ensures ts[0].review == PriyaReview && ts[1].review == AnkitReview && ts[2].review == SarahReview
    ensures ts[0].gender == "female" && ts[1].gender == "male" && ts[2].gender == "female"
    ensures ts[0].isStatic && ts[1].isStatic && ts[2].isStatic
    ensures ts[0].avatar.genderParam == GenderKey + "female"
    ensures ts[1].avatar.genderParam == GenderKey + "male"
    ensures ts[2].avatar.genderParam == GenderKey + "female"
    ensures AllWellFormed(ts)
  {
    StaticTextsVisible();
    var priya := MakeTestimonial("Priya S.", PriyaReview, "female", true, now0);
    var ankit := MakeTestimonial("Ankit R.", AnkitReview, "male", true, now1);
    var sarah := MakeTestimonial("Sarah J.", SarahReview, "female", true, now2);
    AllWellFormedOfThree(priya, ankit, sarah);
    [priya, ankit, sarah]
  }

  /** A card whose author and quote each hold a visible character: what
      trims to nothing is never shown as a name or a review. */
  predicate WellFormed(t: Testimonial) {
    !JsText.AllWhitespace(t.name) && !JsText.AllWhitespace(t.review)
  }

  predicate AllWellFormed(ts: seq<Testimonial>) {
    forall i :: 0 <= i < |ts| ==> WellFormed(ts[i])
  }

  lemma AllWellFormedOfThree(a: Testimonial, b: Testimonial, c: Testimonial)
    requires WellFormed(a) && WellFormed(b) && WellFormed(c)
    ensures AllWellFormed([a, b, c])
  {
  }

  /** A string whose last character is visible is not blank. */
  lemma VisibleLast(s: string)
    requires |s| > 0 && !JsText.IsWhitespace(s[|s| - 1])
    ensures !JsText.AllWhitespace(s)
  {
  }

  /** The built-in names and reviews each end with a visible character. */
  lemma StaticTextsVisible()
    ensures !JsText.AllWhitespace("Priya S.") && !JsText.AllWhitespace(PriyaReview)
    ensures !JsText.AllWhitespace("Ankit R.") && !JsText.AllWhitespace(AnkitReview)
    ensures !JsText.AllWhitespace("Sarah J.") && !JsText.AllWhitespace(SarahReview)
  {
    VisibleLast("Priya S.");
    VisibleLast("Ankit R.");
    VisibleLast("Sarah J.");
    VisibleLast(PriyaReview);
    VisibleLast(AnkitReview);
    VisibleLast(SarahReview);
  }
}
