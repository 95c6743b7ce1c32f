/** What a route handler answers: a status code and a JSON body, and the
    tables as they stand after the request. Error bodies carry only a
    human-readable message, whose text is not modelled. */
module Http {
  import opened Common
  import opened Tables
  import opened Aggregate
  import opened PlantDetail

  /** The claims of the login token. */
  datatype Claims = Claims(id: string, email: string, name: string)

  /** What `jwt.sign` is handed: the claims, the signing secret and the
      lifetime in seconds. The signature itself is not modelled. */
  datatype TokenGrant = TokenGrant(claims: Claims, secret: string, expiresInSeconds: nat)

  /** The public columns `SELECT id, name, email FROM usuarios` returns. */
  datatype PublicUser = PublicUser(id: string, name: string, email: string)

  datatype Body =
    | Message
    | UserTree(users: seq<UserNode>)
    | PlantBody(planta: PlantView)
    | CreatedPlant(plant: Plant)
    | ServicesAdded(plantaId: string, servicioIds: seq<int>)
    | InvalidServices(validServiceIds: seq<int>)
    | CreatedUser(created: User)
    | Token(token: TokenGrant)
    | UserBody(publicUser: PublicUser)

  datatype Reply = Reply(status: int, body: Body)

  /** A handler's answer together with the tables after the request. */
  datatype Outcome = Outcome(reply: Reply, store: Store)

  /** A message-only answer that leaves the tables alone. */
  function Refuse(status: int, s: Store): Outcome
  {
    Outcome(Reply(status, Message), s)
  }
}
