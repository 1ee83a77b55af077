/** The responses the controllers produce: a status code and the body
    Jackson would serialise, one constructor per body shape. */
module Http {
  import opened Wrappers
  import opened Json
  import opened CardModel
  import opened CardService
  import opened CatalogClient

  const Ok := 200
  const Created := 201
  const BadRequest := 400
  const Unauthorized := 401
  const NotFoundStatus := 404
  const Conflict := 409
  const ServerError := 500

  datatype Body =
    | ErrorBody(error: string)                                   // {"error": ...}
    | MessageBody(message: string)                               // {"message": ...}
    | AddedBody(message: string, id: int)                        // {"message": ..., "id": ...}
    | RefreshedBody(message: string, updated: int)               // {"message": ..., "updated": ...}
    | CardsBody(cards: seq<Card>, total: int)                    // {"cards": ..., "total": ...}
    | PublicCardsBody(cards: seq<Card>, total: int, ownerName: string) // {"cards", "total", "displayName"}
    | StatsBody(stats: Stats)
    | PageBody(page: SearchPage)
    | JsonBody(json: Json)
    | AuthBody(username: string, displayName: Option<string>)    // AuthResponse
    | EmptyBody                                                  // ResponseEntity.notFound().build()
    | DefaultErrorBody                                           // Spring's answer to an escaped exception

  datatype Response = Response(status: int, body: Body)

  /** The answer Spring gives when a handler lets an exception escape. */
  const Escaped := Response(ServerError, DefaultErrorBody)
}
