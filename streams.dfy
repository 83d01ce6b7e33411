/**
 * `VectorPlayerStream`: a single-pass cursor over a fixed vector of records.
 * The stored vector never changes; only the cursor `index` advances.
 */
module Streams {
  import opened Players

  /** The failure `nextPlayer` raises once every record has been read. */
  datatype StreamError = NoMorePlayers

  datatype Result<T> = Ok(value: T) | Err(error: StreamError)

  class VectorPlayerStream {
    const players: seq<Player>
    var index: nat

    ghost predicate Valid()
      reads this
    {
      index <= |players|
    }

    /** The records already handed out, in the order they were handed out. */
    ghost function Consumed(): seq<Player>
      reads this
      requires Valid()
    {
      players[..index]
    }

    /** The records still to come, in order. */
    ghost function Unread(): seq<Player>
      reads this
      requires Valid()
    {
      players[index..]
    }

    constructor (players: seq<Player>)
      ensures Valid()
      ensures this.players == players && index == 0
      ensures Consumed() == [] && Unread() == players
      ensures Remaining() == |players|
    {
      this.players := players;
      index := 0;
    }

    /** Number of records not yet read. */
    function Remaining(): (r: nat)
      reads this
      requires Valid()
      ensures r == |Unread()|
      ensures r == 0 <==> Consumed() == players
    {
      |players| - index
    }

    /**
     * The next record in order, advancing the cursor by one; fails, and
     * changes nothing, once every record has been read.
     */
    method NextPlayer() returns (r: Result<Player>)
      requires Valid()
      modifies this
      ensures Valid()
      ensures old(index) < |players| ==>
        r == Ok(players[old(index)]) && index == old(index) + 1 &&
        Consumed() == old(Consumed()) + [r.value] &&
        Remaining() == old(Remaining()) - 1
      ensures old(index) >= |players| ==>
        r == Err(NoMorePlayers) && index == old(index)
    {
      if index >= |players| {
        return Err(NoMorePlayers);
      }
      r := Ok(players[index]);
      index := index + 1;
      assert players[..index] == players[..index - 1] + [players[index - 1]];
    }
  }

  /**
   * Reading a fresh stream until nothing remains hands out exactly the stored
   * records, in their stored order; one more read then fails.
   */
  method ReadAll(players: seq<Player>) returns (read: seq<Player>, after: Result<Player>)
    ensures read == players
    ensures after == Err(NoMorePlayers)
  {
    var stream := new VectorPlayerStream(players);
    read := [];
    while stream.Remaining() > 0
      invariant stream.Valid() && stream.players == players
      invariant read == stream.Consumed()
      decreases stream.Remaining()
    {
      var r := stream.NextPlayer();
      read := read + [r.value];
    }
    after := stream.NextPlayer();
  }
}
