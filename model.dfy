// The entities the isotropic matchmaker consumes and produces. Their own
// classes (Player, Seek, Match and the requirement classes) are not part of
// this model; they are represented here by the fields the matchmaker uses.

module AutomatchModel {

  datatype Option<T> = None | Some(value: T)

  /** A player: its name and the card sets it owns (only their number matters here). */
  datatype Player = Player(pname: string, setsOwned: seq<string>)

  /** One constraint a seek places on a game. The matchmaker dispatches on the
      first three kinds; every other requirement class is `OtherRequirement`,
      which only the feasibility oracle of a match looks at. */
  datatype Requirement =
    | NumPlayers(minPlayers: int, maxPlayers: int)
    | RatingSystem(ratingSystem: string)
    | VPCounter(vpcounter: Option<bool>)
    | OtherRequirement(kind: string)

  /** A player's open request for a game. Two equal seek values are the same seek. */
  datatype Seek = Seek(player: Player, requirements: seq<Requirement>)

  /** The value of a match object: what a matching pass hands back. */
  datatype MatchRecord = MatchRecord(
    seeks: seq<Seek>,
    ratingSystem: string,
    hostname: Option<string>,
    roomname: Option<string>,
    vpcounter: Option<bool>)

  /** A proposed game. The matchmaker creates one per trial and then sets its
      host, its room and its VP-counter setting in place. */
  class Match {
    var seeks: seq<Seek>
    var ratingSystem: string
    var hostname: Option<string>
    var roomname: Option<string>
    var vpcounter: Option<bool>

    constructor (seeks: seq<Seek>, ratingSystem: string, hostname: Option<string>)
      ensures this.seeks == seeks && this.ratingSystem == ratingSystem
      ensures this.hostname == hostname
      ensures roomname == None && vpcounter == None
    {
      this.seeks := seeks;
      this.ratingSystem := ratingSystem;
      this.hostname := hostname;
      roomname := None;
      vpcounter := None;
    }

    function Value(): MatchRecord
      reads this
    {
      MatchRecord(seeks, ratingSystem, hostname, roomname, vpcounter)
    }
  }
}
