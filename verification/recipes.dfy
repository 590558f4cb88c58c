/** The recipe renderer's pure part: from one recipe record to the card
    the page shows (link, image, title and ingredient sentence). */
module Recipes {
  import opened Optional
  import opened Decimal
  import JsText

  /** A record of the recipe-search response. `id` and the two counts are
      integral JSON numbers; `unusedIngredients` is read only for its length. */
  datatype Recipe = Recipe(
    id: nat,
    title: string,
    image: string,
    usedIngredientCount: nat,
    missedIngredientCount: nat,
    unusedIngredients: seq<string>)

  /** A rendered card: the anchor's `href`, the image source, the heading
      and the ingredient sentence of the overlay. */
  datatype Card = Card(link: string, image: string, title: string, text: string)

  const RecipePageBase := "https://spoonacular.com/recipes/"

  const HavePrefix := "You have "
  const OfIngredients := " of the ingredients."
  const MissingPrefix := " Missing "
  const MissingSuffix := "."
  const AllIngredients := " You have all the ingredients! \U{1F389}"

  /** What follows the used count: the missing count, or the cheer when
      nothing is missing. */
  function IngredientsTail(missed: nat): string {
    if missed > 0 then MissingPrefix + FromNat(missed) + MissingSuffix else AllIngredients
  }

  /** Reads the used count off the front of a sentence, with what follows.
      Only a numeral as a template literal prints it is accepted: no
      superfluous leading zero. */
  function ParseHead(s: string): Option<(nat, string)> {
    if !JsText.StartsWith(s, HavePrefix) then None
    else
      var rest := s[|HavePrefix|..];
      var k := DigitPrefixLength(rest);
      var after := rest[k..];
      if !Canonical(rest[..k]) || !JsText.StartsWith(after, OfIngredients) then None
      else Some((ToNat(rest[..k]), after[|OfIngredients|..]))
  }

  /** Reads the missing count off the end of a sentence; again only a
      canonical numeral is accepted. */
  function ParseTail(tail: string): Option<nat> {
    if tail == AllIngredients then Some(0)
    else if |tail| > |MissingPrefix| && JsText.StartsWith(tail, MissingPrefix)
         && JsText.EndsWith(tail, MissingSuffix)
         && Canonical(tail[|MissingPrefix|..|tail| - 1])
         && ToNat(tail[|MissingPrefix|..|tail| - 1]) > 0
    then Some(ToNat(tail[|MissingPrefix|..|tail| - 1]))
    else None
  }

  /** Reads the two counts back out of an ingredient sentence. */
  function ParseIngredientsMessage(s: string): Option<(nat, nat)> {
    match ParseHead(s)
    case None => None
    case Some((used, tail)) =>
      match ParseTail(tail)
      case None => None
      case Some(missed) => Some((used, missed))
  }

  lemma HeadRoundTrip(used: nat, tail: string)
    ensures ParseHead(HavePrefix + FromNat(used) + OfIngredients + tail) == Some((used, tail))
  {
    var u := FromNat(used);
    var s := HavePrefix + FromNat(used) + OfIngredients + tail;
    assert s == HavePrefix + (u + (OfIngredients + tail));
    assert s[..|HavePrefix|] == HavePrefix;
    assert JsText.StartsWith(s, HavePrefix);
    var rest := s[|HavePrefix|..];
    assert rest == u + (OfIngredients + tail);
    DigitPrefixOfNumeral(u, OfIngredients + tail);
    assert rest[..|u|] == u;
    assert Canonical(rest[..|u|]);
    ToNatFromNat(used);
    var after := rest[|u|..];
    assert after == OfIngredients + tail;
    assert after[..|OfIngredients|] == OfIngredients;
    assert JsText.StartsWith(after, OfIngredients);
    assert after[|OfIngredients|..] == tail;
  }

  lemma TailRoundTrip(missed: nat)
    ensures ParseTail(IngredientsTail(missed)) == Some(missed)
  {
    if missed > 0 {
      var m := FromNat(missed);
      var tail := IngredientsTail(missed);
      assert tail[|tail| - 1] == '.' != AllIngredients[|AllIngredients| - 1];
      assert tail[..|MissingPrefix|] == MissingPrefix;
      assert tail[|tail| - 1..] == MissingSuffix;
      assert tail[|MissingPrefix|..|tail| - 1] == m;
      ToNatFromNat(missed);
    }
  }

  /** The overlay sentence for a recipe that uses `used` of the entered
      ingredients and lacks `missed` others. It carries both counts:
      reading it back recovers them. */
  function IngredientsMessage(used: nat, missed: nat): (s: string)
    ensures ParseIngredientsMessage(s) == Some((used, missed))
  {
    HeadRoundTrip(used, IngredientsTail(missed));
    TailRoundTrip(missed);
    HavePrefix + FromNat(used) + OfIngredients + IngredientsTail(missed)
  }

  /** Two recipes get the same sentence only when both counts agree. */
  lemma IngredientsMessageInjective(u1: nat, m1: nat, u2: nat, m2: nat)
    ensures IngredientsMessage(u1, m1) == IngredientsMessage(u2, m2) <==> u1 == u2 && m1 == m2
  {
    var s1 := IngredientsMessage(u1, m1);
    var s2 := IngredientsMessage(u2, m2);
    assert s1 == s2 ==> ParseIngredientsMessage(s1) == ParseIngredientsMessage(s2);
  }

  /** The anchor target: the recipe-page base, the title with white space
      turned into hyphens position by position, a hyphen, and the id's
      numeral, which reads back to the id. */
  function RecipeLink(title: string, id: nat): (link: string)
    ensures var start := |RecipePageBase|;
      && var idStart := start + |title| + 1;
      && |link| == idStart + |FromNat(id)|
      && link[..start] == RecipePageBase
      && (forall i :: 0 <= i < |title| ==>
            link[start + i] == if JsText.IsWhitespace(title[i]) then '-' else title[i])
      && (forall i :: start <= i < idStart ==> !JsText.IsWhitespace(link[i]))
      && link[idStart - 1] == '-'
      && AllDigits(link[idStart..])
      && ToNat(link[idStart..]) == id
  {
    HyphenJoin(RecipePageBase, JsText.Slug(title), FromNat(id));
    ToNatFromNat(id);
    RecipePageBase + JsText.Slug(title) + "-" + FromNat(id)
  }

  /** The parts of `a + b + "-" + c`, position by position. */
  lemma HyphenJoin(a: string, b: string, c: string)
    ensures var x := a + b + "-" + c;
      && |x| == |a| + |b| + 1 + |c|
      && x[..|a|] == a
      && (forall i :: |a| <= i < |a| + |b| ==> x[i] == b[i - |a|])
      && x[|a| + |b|] == '-'
      && x[|a| + |b| + 1..] == c
  {
  }

  /** The card `displayRecipes` builds for one record: it links to the
      recipe's page (whose tail reads back to the id), shows the record's
      image and title, and its sentence starts "You have ", carries the used
      and missed counts, and ends with the all-ingredients cheer exactly
      when nothing is missing. */
  function CardFor(r: Recipe): (c: Card)
    ensures c.title == r.title && c.image == r.image
    ensures c.link == RecipeLink(r.title, r.id)
    ensures c.text == IngredientsMessage(r.usedIngredientCount, r.missedIngredientCount)
    ensures JsText.StartsWith(c.link, RecipePageBase)
    ensures var idStart := |RecipePageBase| + |r.title| + 1;
      && idStart <= |c.link| && c.link[idStart - 1] == '-'
      && AllDigits(c.link[idStart..]) && ToNat(c.link[idStart..]) == r.id
    ensures JsText.StartsWith(c.text, HavePrefix)
    ensures ParseIngredientsMessage(c.text) == Some((r.usedIngredientCount, r.missedIngredientCount))
    ensures r.missedIngredientCount == 0 <==> JsText.EndsWith(c.text, AllIngredients)
  {
    MessageEnds(r.usedIngredientCount, r.missedIngredientCount);
    Card(RecipeLink(r.title, r.id), r.image, r.title,
         IngredientsMessage(r.usedIngredientCount, r.missedIngredientCount))
  }

  /** One card per record, in the order of the records (the `forEach` loop). */
  function Cards(rs: seq<Recipe>): (cards: seq<Card>)
    ensures |cards| == |rs|
    ensures forall i :: 0 <= i < |rs| ==> cards[i] == CardFor(rs[i])
    decreases |rs|
  {
    if rs == [] then [] else [CardFor(rs[0])] + Cards(rs[1..])
  }

  /** The sentence opens with "You have " and closes with the cheer exactly
      when nothing is missing. */
  lemma MessageEnds(used: nat, missed: nat)
    ensures JsText.StartsWith(IngredientsMessage(used, missed), HavePrefix)
    ensures missed == 0 <==> JsText.EndsWith(IngredientsMessage(used, missed), AllIngredients)
  {
    var text := IngredientsMessage(used, missed);
    var head := HavePrefix + FromNat(used) + OfIngredients;
    var tail := IngredientsTail(missed);
    JsText.PrefixOfJoin(HavePrefix, FromNat(used) + OfIngredients + tail);
    assert text == head + tail;
    if missed > 0 {
      assert text[|text| - 1] == tail[|tail| - 1] == '.';
      JsText.EndsWithLast(text, AllIngredients);
    } else {
      assert text[|text| - |AllIngredients|..] == AllIngredients;
    }
  }
}
