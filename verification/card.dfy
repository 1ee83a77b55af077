/** The persisted Card entity and the two request bodies that feed it. */
module CardModel {
  import opened Wrappers

  /** A LocalDateTime, as a point on an ordered time line. */
  type Timestamp = int

  /** One row of the cards table. Every Java reference field is an Option;
      `quantity` is a primitive int and so is never null. */
  datatype Card = Card(
    id: Option<int>,
    cardId: Option<string>,
    name: Option<string>,
    setId: Option<string>,
    setName: Option<string>,
    series: Option<string>,
    rarity: Option<string>,
    types: Option<string>,
    subtypes: Option<string>,
    category: Option<string>,
    hp: Option<int>,
    imageSmall: Option<string>,
    imageLarge: Option<string>,
    quantity: int,
    condition: Option<string>,
    notes: Option<string>,
    userId: Option<int>,
    priceLow: Option<real>,
    priceMid: Option<real>,
    priceHigh: Option<real>,
    priceMarket: Option<real>,
    priceUpdatedAt: Option<string>,
    createdAt: Option<Timestamp>,
    updatedAt: Option<Timestamp>)

  /** The condition a card gets when nobody says otherwise. */
  const DefaultCondition := "NM"

  /** `new Card()`: field initialisers only. The two timestamps are separate
      clock reads, so they are separate parameters. */
  function NewCard(created: Timestamp, updated: Timestamp): (c: Card)
    ensures c.quantity == 1 && c.condition == Some(DefaultCondition)
    ensures c.createdAt == Some(created) && c.updatedAt == Some(updated)
    ensures c.id.None? && c.userId.None? && c.cardId.None? && c.name.None?
    ensures c.setId.None? && c.setName.None? && c.series.None? && c.rarity.None?
    ensures c.types.None? && c.subtypes.None? && c.category.None? && c.hp.None?
    ensures c.imageSmall.None? && c.imageLarge.None? && c.notes.None?
    ensures c.priceLow.None? && c.priceMid.None? && c.priceHigh.None? && c.priceMarket.None?
    ensures c.priceUpdatedAt.None?
  {
    Card(None, None, None, None, None, None, None, None, None, None, None, None, None,
         1, Some(DefaultCondition), None, None, None, None, None, None, None,
         Some(created), Some(updated))
  }

  /** The columns declared `nullable = false` all hold a value, which is
      what the database demands before it accepts the row. */
  predicate Persistable(c: Card) {
    c.cardId.Some? && c.name.Some? && c.condition.Some? && c.createdAt.Some? && c.updatedAt.Some?
  }

  /** Body of POST /api/collection. */
  datatype AddCardRequest = AddCardRequest(
    cardId: Option<string>,
    quantity: int,
    condition: Option<string>,
    notes: Option<string>)

  /** The request as Jackson builds it before any JSON member is bound:
      quantity 1, condition "NM", no catalog id, no notes. */
  function EmptyAddCardRequest(): (r: AddCardRequest)
    ensures r.quantity == 1 && r.condition == Some(DefaultCondition)
    ensures r.cardId.None? && r.notes.None?
  {
    AddCardRequest(None, 1, Some(DefaultCondition), None)
  }

  /** Body of PATCH /api/collection/{id}: every field is optional. */
  datatype UpdateCardRequest = UpdateCardRequest(
    quantity: Option<int>,
    condition: Option<string>,
    notes: Option<string>)
}
