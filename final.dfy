/** The split-or-steal payoff of the final round, in the two forms the server
    has: `final:choice`, which reads the two choices of the two remaining
    players in player order, and `player:final:choice`, which reads the first
    two choices in the order they were submitted. */
module FinalRound {
  import opened Wrappers
  import opened GameModel

  /** `result.winner` of `final:choice`: "both", a player id, or null. */
  datatype Winner = Both | Player(id: Id) | Nobody

  /** `result` of `final:choice`. */
  datatype Outcome = Outcome(winner: Winner, payout: int)

  /** `result` of `player:final:choice`. */
  datatype Settlement = Settlement(message: string, winners: seq<Id>, pot: int)

  /** The payoff of `final:choice` for players `p1`, `p2` (in that order) whose
      stored choices are `c1`, `c2` (`None` when a player has not chosen).
      Both split: a shared win of half the pot each. One steals while the other
      splits: the stealer takes the whole pot. Anything else (both steal, a
      missing choice, an unrecognised value): no winner and no payout. */
  function Resolve(p1: Id, p2: Id, c1: Option<Choice>, c2: Option<Choice>, pot: int): (r: Outcome)
    ensures r.winner == Both <==> c1 == Some(Split) && c2 == Some(Split)
    ensures r.winner == Both && pot % 2 == 0 ==> 2 * r.payout == pot
    ensures c1 == Some(Steal) && c2 == Some(Split) ==> r == Outcome(Player(p1), pot)
    ensures c1 == Some(Split) && c2 == Some(Steal) ==> r == Outcome(Player(p2), pot)
    ensures r.winner.Player? ==>
              r.payout == pot &&
              ((c1 == Some(Steal) && c2 == Some(Split)) || (c1 == Some(Split) && c2 == Some(Steal)))
    ensures r.winner == Nobody ==> r.payout == 0
  {
    if c1 == Some(Split) && c2 == Some(Split) then Outcome(Both, pot / 2)
    else if c1 == Some(Steal) && c2 == Some(Split) then Outcome(Player(p1), pot)
    else if c1 == Some(Split) && c2 == Some(Steal) then Outcome(Player(p2), pot)
    else Outcome(Nobody, 0)
  }

  /** The payoff does not depend on which of the two players is listed first. */
  lemma ResolveSymmetric(p1: Id, p2: Id, c1: Option<Choice>, c2: Option<Choice>, pot: int)
    ensures Resolve(p2, p1, c2, c1, pot) == Resolve(p1, p2, c1, c2, pot)
  {
  }

  /** The payoff of `player:final:choice` for the first two submitters `p1`,
      `p2` (in submission order) and their choices `c1`, `c2`. Both split: both
      win, half the pot. Both steal: nobody wins, nothing is paid. Otherwise
      the "stealer" takes the whole pot, where the stealer is `p1` if `c1` is
      steal and `p2` in every other case. */
  function SettleByArrival(p1: Id, p2: Id, c1: Choice, c2: Choice, pot: int): (r: Settlement)
    ensures c1 == Split && c2 == Split ==>
              r.winners == [p1, p2] && (pot % 2 == 0 ==> 2 * r.pot == pot) &&
              r.message == "Both players split the pot!"
    ensures c1 == Steal && c2 == Steal ==>
              r.winners == [] && r.pot == 0 &&
              r.message == "Both players tried to steal. Nobody wins!"
    ensures !(c1 == Split && c2 == Split) && !(c1 == Steal && c2 == Steal) ==>
              r.winners == [if c1 == Steal then p1 else p2] && r.pot == pot &&
              r.message == r.winners[0] + " stole the pot!"
  {
    if c1 == Split && c2 == Split then
      Settlement("Both players split the pot!", [p1, p2], pot / 2)
    else if c1 == Steal && c2 == Steal then
      Settlement("Both players tried to steal. Nobody wins!", [], 0)
    else
      var stealer := if c1 == Steal then p1 else p2;
      Settlement(stealer + " stole the pot!", [stealer], pot)
  }

  /** The ids a `final:choice` outcome pays. */
  function Paid(p1: Id, p2: Id, w: Winner): seq<Id> {
    match w
    case Both => [p1, p2]
    case Player(p) => [p]
    case Nobody => []
  }

  /** On genuine split/steal choices the two handlers agree on who is paid and
      how much. */
  lemma HandlersAgree(p1: Id, p2: Id, c1: Choice, c2: Choice, pot: int)
    requires c1 == Split || c1 == Steal
    requires c2 == Split || c2 == Steal
    ensures var r := Resolve(p1, p2, Some(c1), Some(c2), pot);
            var s := SettleByArrival(p1, p2, c1, c2, pot);
            Paid(p1, p2, r.winner) == s.winners && r.payout == s.pot
  {
  }

  /** Where the choices are not both genuine, the handlers part ways. Against
      a splitter, an unrecognised choice always forfeits the pot in
      `final:choice`, in either order. In `player:final:choice` the second
      submitter takes the pot unless the first chose steal: an unrecognised
      choice submitted second wins it, and one submitted first hands it to the
      splitter, who is then announced as the stealer. */
  lemma UnrecognisedChoice(p1: Id, p2: Id, raw: OtherWord, pot: int)
    ensures Resolve(p1, p2, Some(Split), Some(Other(raw)), pot) == Outcome(Nobody, 0)
    ensures Resolve(p1, p2, Some(Other(raw)), Some(Split), pot) == Outcome(Nobody, 0)
    ensures SettleByArrival(p1, p2, Split, Other(raw), pot).winners == [p2]
    ensures SettleByArrival(p1, p2, Split, Other(raw), pot).pot == pot
    ensures SettleByArrival(p1, p2, Other(raw), Split, pot).winners == [p2]
    ensures SettleByArrival(p1, p2, Other(raw), Split, pot).pot == pot
    ensures SettleByArrival(p1, p2, Other(raw), Split, pot).message == p2 + " stole the pot!"
  {
  }
}
