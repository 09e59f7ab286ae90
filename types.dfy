/**
 * The stored records (src/types.ts). A `Date` is its time value in milliseconds;
 * an optional field is an `Option`.
 */
module Types {
  import opened JsBuiltins

  /** One request to a partner to stream a game. */
  datatype AskRecord = AskRecord(partnerId: string, askedOn: int, response: Option<string>, confirmed: bool)

  /**
   * A game to be streamed. `trashed` is read by the unmet-games view but not declared
   * on the record; an absent flag is `false`.
   */
  datatype Game = Game(
    id: string,
    name: string,
    deadline: Option<int>,
    desiredPartners: int,
    asks: seq<AskRecord>,
    tags: Option<seq<string>>,
    done: Option<int>,
    trashed: bool)

  /** A streaming partner. */
  datatype Partner = Partner(
    id: string,
    name: string,
    lastStreamedWith: Option<int>,
    schedule: Option<string>,
    busyUntil: Option<int>,
    lovesTags: Option<seq<string>>,
    hatesTags: Option<seq<string>>)

  /** The whole store; the settings are not read by the helpers modelled here. */
  datatype Store = Store(games: seq<Game>, partners: seq<Partner>)
}
