/** Turning a catalog (TCGdex) card document into a Card row, and the
    pricing step that is re-run on every price refresh. */
module Normalizer {
  import opened Wrappers
  import opened Json
  import opened CardModel

  /** The member's text when present and not null, else null. */
  function TextOrNull(node: Json, key: string, co: Coercions): Option<string> {
    match NonNull(node, key)
    case Some(v) => Some(co.asText(v))
    case None => None
  }

  /** The member's number when present and not null, else null. */
  function DoubleOrNull(node: Json, key: string, co: Coercions): Option<real> {
    match NonNull(node, key)
    case Some(v) => Some(co.asDouble(v))
    case None => None
  }

  /** `v` is what a nullable text column gets from member `key`: null exactly
      when the member is absent or JSON null, its text otherwise. */
  predicate TextFrom(node: Json, key: string, v: Option<string>, co: Coercions) {
    && (v.None? <==> NonNull(node, key).None?)
    && (v.Some? ==> v.value == co.asText(NonNull(node, key).value))
  }

  // ---------------------------------------------------------------------
  // Pricing
  // ---------------------------------------------------------------------

  /** The marketplace variants, in the order they are tried. */
  const VariantKeys: seq<string> := ["normal", "holofoil", "reverse-holofoil"]

  /** keys[i] is present and non-null and no earlier key is. */
  predicate FirstQualifying(block: Json, keys: seq<string>, i: int) {
    && 0 <= i < |keys|
    && NonNull(block, keys[i]).Some?
    && forall j :: 0 <= j < i ==> NonNull(block, keys[j]).None?
  }

  /** Probes `keys` in order and returns the first member that is present
      and non-null. */
  function FirstVariant(block: Json, keys: seq<string>): (r: Option<Json>)
    ensures r.Some? <==> exists i :: 0 <= i < |keys| && NonNull(block, keys[i]).Some?
    ensures r.Some? ==> exists i :: FirstQualifying(block, keys, i) && r == NonNull(block, keys[i])
    decreases |keys|
  {
    if |keys| == 0 then None
    else match NonNull(block, keys[0])
      case Some(v) =>
        assert FirstQualifying(block, keys, 0);
        Some(v)
      case None =>
        var r := FirstVariant(block, keys[1..]);
        FirstVariantStep(block, keys, r);
        r
  }

  /** Skipping a first key that does not qualify shifts the answer for the
      remaining keys to the whole list. */
  lemma FirstVariantStep(block: Json, keys: seq<string>, r: Option<Json>)
    requires |keys| > 0 && NonNull(block, keys[0]).None?
    requires r.Some? <==> exists i :: 0 <= i < |keys[1..]| && NonNull(block, keys[1..][i]).Some?
    requires r.Some? ==> exists i :: FirstQualifying(block, keys[1..], i) && r == NonNull(block, keys[1..][i])
    ensures r.Some? <==> exists i :: 0 <= i < |keys| && NonNull(block, keys[i]).Some?
    ensures r.Some? ==> exists i :: FirstQualifying(block, keys, i) && r == NonNull(block, keys[i])
  {
    if r.Some? {
      var i :| FirstQualifying(block, keys[1..], i) && r == NonNull(block, keys[1..][i]);
      assert FirstQualifying(block, keys, i + 1);
    }
    if exists i :: 0 <= i < |keys| && NonNull(block, keys[i]).Some? {
      var i :| 0 <= i < |keys| && NonNull(block, keys[i]).Some?;
      assert keys[1..][i - 1] == keys[i];
    }
  }

  /** The `tcgplayer` block, when both it and `pricing` are present and
      non-null. */
  function Marketplace(data: Json): Option<Json> {
    match NonNull(data, "pricing")
    case None => None
    case Some(pricing) => NonNull(pricing, "tcgplayer")
  }

  /** The variant whose prices are used, if any. */
  function ChosenVariant(data: Json): Option<Json> {
    match Marketplace(data)
    case None => None
    case Some(block) => FirstVariant(block, VariantKeys)
  }

  /** `a` and `b` agree on every column except the four prices and
      priceUpdatedAt. */
  predicate SameExceptPrices(a: Card, b: Card) {
    a.(priceLow := b.priceLow, priceMid := b.priceMid, priceHigh := b.priceHigh,
       priceMarket := b.priceMarket, priceUpdatedAt := b.priceUpdatedAt) == b
  }

  /** The prices of `card` as the variant `v` of marketplace block `block`
      sets them: each price independently, priceUpdatedAt only when the
      block carries a non-null `updated`. */
  predicate PricedFrom(r: Card, card: Card, block: Json, v: Json, co: Coercions) {
    && r.priceLow == DoubleOrNull(v, "lowPrice", co)
    && r.priceMid == DoubleOrNull(v, "midPrice", co)
    && r.priceHigh == DoubleOrNull(v, "highPrice", co)
    && r.priceMarket == DoubleOrNull(v, "marketPrice", co)
    && (NonNull(block, "updated").Some? ==>
          r.priceUpdatedAt == Some(co.asText(NonNull(block, "updated").value)))
    && (NonNull(block, "updated").None? ==> r.priceUpdatedAt == card.priceUpdatedAt)
  }

  /** CardService.mapPricing: leaves the card alone unless a variant is
      found; otherwise overwrites the prices from it. */
  function MapPricing(data: Json, card: Card, co: Coercions): (r: Card)
    ensures ChosenVariant(data).None? ==> r == card
    ensures SameExceptPrices(r, card)
    ensures ChosenVariant(data).Some? ==>
              PricedFrom(r, card, Marketplace(data).value, ChosenVariant(data).value, co)
  {
    var pricing := Member(data, "pricing");
    if pricing.None? || pricing.value.JNull? then card
    else
      var tcgplayer := Member(pricing.value, "tcgplayer");
      if tcgplayer.None? || tcgplayer.value.JNull? then card
      else match FirstVariant(tcgplayer.value, VariantKeys)
        case None => card
        case Some(variant) =>
          card.(priceLow := DoubleOrNull(variant, "lowPrice", co),
                priceMid := DoubleOrNull(variant, "midPrice", co),
                priceHigh := DoubleOrNull(variant, "highPrice", co),
                priceMarket := DoubleOrNull(variant, "marketPrice", co),
                priceUpdatedAt :=
                  match NonNull(tcgplayer.value, "updated")
                  case Some(u) => Some(co.asText(u))
                  case None => card.priceUpdatedAt)
  }

  /** "normal" beats every other variant, and "reverse-holofoil" is used
      when it is the only one present. */
  lemma VariantFallback(block: Json)
    ensures NonNull(block, "normal").Some? ==>
              FirstVariant(block, VariantKeys) == NonNull(block, "normal")
    ensures NonNull(block, "normal").None? && NonNull(block, "holofoil").None?
              && NonNull(block, "reverse-holofoil").Some? ==>
              FirstVariant(block, VariantKeys) == NonNull(block, "reverse-holofoil")
    ensures NonNull(block, "normal").None? && NonNull(block, "holofoil").None?
              && NonNull(block, "reverse-holofoil").None? ==>
              FirstVariant(block, VariantKeys).None?
  {
    if FirstVariant(block, VariantKeys).Some? {
      var i :| FirstQualifying(block, VariantKeys, i)
               && FirstVariant(block, VariantKeys) == NonNull(block, VariantKeys[i]);
      if NonNull(block, "normal").Some? {
        assert FirstQualifying(block, VariantKeys, 0);
      }
    }
  }

  // ---------------------------------------------------------------------
  // Whole-document mapping
  // ---------------------------------------------------------------------

  const LowSuffix := "/low.webp"
  const HighSuffix := "/high.webp"

  /** The identity and classification columns of a fresh Card, filled from
      the top-level members of the catalog document. */
  function Identify(data: Json, created: Timestamp, updated: Timestamp, co: Coercions): (c: Card)
    ensures TextFrom(data, "id", c.cardId, co) && TextFrom(data, "name", c.name, co)
    ensures TextFrom(data, "category", c.category, co) && TextFrom(data, "rarity", c.rarity, co)
    ensures c.hp.Some? <==> Has(data, "hp")
    ensures c.hp.Some? ==> c.hp.value == co.asInt(Member(data, "hp").value)
    ensures !Has(data, "types") ==> c.types == Some("[]")
    ensures Has(data, "types") ==> c.types == Some(co.serialize(Member(data, "types").value))
    ensures !Has(data, "stage") ==> c.subtypes == Some("[]")
    ensures Has(data, "stage") ==>
              c.subtypes == Some("[\"" + co.asText(Member(data, "stage").value) + "\"]")
    ensures c.(cardId := None, name := None, category := None, rarity := None,
               hp := None, types := None, subtypes := None) == NewCard(created, updated)
  {
    NewCard(created, updated).(
      cardId := TextOrNull(data, "id", co),
      name := TextOrNull(data, "name", co),
      category := TextOrNull(data, "category", co),
      rarity := TextOrNull(data, "rarity", co),
      hp := if Has(data, "hp") then Some(co.asInt(Member(data, "hp").value)) else None,
      types := Some(if Has(data, "types") then co.serialize(Member(data, "types").value) else "[]"),
      subtypes := Some(if Has(data, "stage")
                       then "[\"" + co.asText(Member(data, "stage").value) + "\"]"
                       else "[]"))
  }

  /** The set columns from the `set` member: untouched without one; with
      one, id and name from it and the series as the name of a series
      object or the text of any other series value. */
  function WithSet(card: Card, data: Json, co: Coercions): (r: Card)
    ensures r.(setId := card.setId, setName := card.setName, series := card.series) == card
    ensures !Has(data, "set") ==> r == card
    ensures Has(data, "set") ==>
              var setNode := Member(data, "set").value;
              && TextFrom(setNode, "id", r.setId, co) && TextFrom(setNode, "name", r.setName, co)
              && (!Has(setNode, "series") ==> r.series == card.series)
              && (Has(setNode, "series") && Member(setNode, "series").value.JObj? ==>
                    TextFrom(Member(setNode, "series").value, "name", r.series, co))
              && (Has(setNode, "series") && !Member(setNode, "series").value.JObj? ==>
                    r.series == Some(co.asText(Member(setNode, "series").value)))
  {
    match Member(data, "set")
    case None => card
    case Some(setNode) =>
      var named := card.(setId := TextOrNull(setNode, "id", co), setName := TextOrNull(setNode, "name", co));
      match Member(setNode, "series")
      case None => named
      case Some(series) =>
        named.(series := if series.JObj? then TextOrNull(series, "name", co) else Some(co.asText(series)))
  }

  /** The two image URLs, derived from the base `image` member when it is
      present and non-null; otherwise the card is untouched. */
  function WithImages(card: Card, data: Json, co: Coercions): (r: Card)
    ensures r.(imageSmall := card.imageSmall, imageLarge := card.imageLarge) == card
    ensures NonNull(data, "image").None? ==> r == card
    ensures NonNull(data, "image").Some? ==>
              var base := co.asText(NonNull(data, "image").value);
              r.imageSmall == Some(base + LowSuffix) && r.imageLarge == Some(base + HighSuffix)
  {
    match TextOrNull(data, "image", co)
    case Some(base) => card.(imageSmall := Some(base + LowSuffix), imageLarge := Some(base + HighSuffix))
    case None => card
  }

  /** CardService.mapToEntity: a fresh Card filled from the catalog
      document, then priced. The columns the caller fills afterwards keep
      the defaults of a new Card. */
  function MapToEntity(data: Json, created: Timestamp, updated: Timestamp, co: Coercions): (r: Card)
    ensures r.id.None? && r.userId.None? && r.notes.None?
    ensures r.quantity == 1 && r.condition == Some(DefaultCondition)
    ensures r.createdAt == Some(created) && r.updatedAt == Some(updated)
  {
    MapPricing(data, WithImages(WithSet(Identify(data, created, updated, co), data, co), data, co), co)
  }

  /** Identity and classification columns are null for absent or JSON-null
      members and the member's text otherwise; hp is set whenever the member
      exists, even as JSON null; types and subtypes default to "[]". */
  lemma MapToEntityFields(data: Json, created: Timestamp, updated: Timestamp, co: Coercions)
    ensures var r := MapToEntity(data, created, updated, co);
      && TextFrom(data, "id", r.cardId, co) && TextFrom(data, "name", r.name, co)
      && TextFrom(data, "category", r.category, co) && TextFrom(data, "rarity", r.rarity, co)
      && (r.hp.Some? <==> Has(data, "hp"))
      && (r.hp.Some? ==> r.hp.value == co.asInt(Member(data, "hp").value))
      && (!Has(data, "types") ==> r.types == Some("[]"))
      && (Has(data, "types") ==> r.types == Some(co.serialize(Member(data, "types").value)))
      && (!Has(data, "stage") ==> r.subtypes == Some("[]"))
      && (Has(data, "stage") ==>
            r.subtypes == Some("[\"" + co.asText(Member(data, "stage").value) + "\"]"))
  {
  }

  /** Without a set member all three set columns stay null; with one, the
      id and name come from it and the series is the name of a series
      object or the text of any other series value. */
  lemma MapToEntitySet(data: Json, created: Timestamp, updated: Timestamp, co: Coercions)
    ensures var r := MapToEntity(data, created, updated, co);
      && (!Has(data, "set") ==> r.setId.None? && r.setName.None? && r.series.None?)
      && (Has(data, "set") ==>
            var setNode := Member(data, "set").value;
            && TextFrom(setNode, "id", r.setId, co) && TextFrom(setNode, "name", r.setName, co)
            && (!Has(setNode, "series") ==> r.series.None?)
            && (Has(setNode, "series") && Member(setNode, "series").value.JObj? ==>
                  TextFrom(Member(setNode, "series").value, "name", r.series, co))
            && (Has(setNode, "series") && !Member(setNode, "series").value.JObj? ==>
                  r.series == Some(co.asText(Member(setNode, "series").value))))
  {
  }

  /** Both image URLs exist exactly when the base image member is present
      and non-null, and are that base with the low and high suffixes. */
  lemma MapToEntityImages(data: Json, created: Timestamp, updated: Timestamp, co: Coercions)
    ensures var r := MapToEntity(data, created, updated, co);
      && (r.imageSmall.Some? <==> NonNull(data, "image").Some?)
      && (r.imageLarge.Some? <==> NonNull(data, "image").Some?)
      && (NonNull(data, "image").Some? ==>
            var base := co.asText(NonNull(data, "image").value);
            r.imageSmall == Some(base + LowSuffix) && r.imageLarge == Some(base + HighSuffix))
  {
  }

  /** A document without a usable variant yields a card with no prices and
      no priceUpdatedAt; otherwise the prices come from the chosen variant. */
  lemma MapToEntityPricing(data: Json, created: Timestamp, updated: Timestamp, co: Coercions)
    ensures var r := MapToEntity(data, created, updated, co);
      && (ChosenVariant(data).None? ==>
            r.priceLow.None? && r.priceMid.None? && r.priceHigh.None?
            && r.priceMarket.None? && r.priceUpdatedAt.None?)
      && (ChosenVariant(data).Some? ==>
            PricedFrom(r, NewCard(created, updated), Marketplace(data).value,
                       ChosenVariant(data).value, co))
  {
  }
}
