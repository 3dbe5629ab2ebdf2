/** Vote resolution of `vote:submit`: counting the votes of a round
    (`tally[t] = (tally[t] || 0) + 1` over `Object.values(game.votes)`), the
    highest count (`Math.max`), the tied candidates (`Object.entries(tally)
    .filter(...)`) and the random tie-break among them. */
module Voting {
  import opened Wrappers
  import opened Lists
  import opened OrderedDict
  import opened GameModel

  /** One more vote for `t`. */
  function Bump(tally: Dict<nat>, t: Id): Dict<nat> {
    Put(tally, t, Get(tally, t).GetOr(0) + 1)
  }

  /** The tally after counting the targets `ts` in order. */
  function TallyOf(ts: seq<Id>): Dict<nat>
    decreases |ts|
  {
    if ts == [] then [] else Bump(TallyOf(ts[..|ts| - 1]), ts[|ts| - 1])
  }

  /** The tally has one entry per target, holding the number of votes it got. */
  lemma TallyCounts(ts: seq<Id>)
    ensures WellFormed(TallyOf(ts))
    ensures forall t :: Get(TallyOf(ts), t) == if t in ts then Some(multiset(ts)[t]) else None
  {
    TallyWellFormed(ts);
    forall t ensures Get(TallyOf(ts), t) == if t in ts then Some(multiset(ts)[t]) else None {
      TallyCount(ts, t);
    }
  }

  /** The tally holds one entry per target. */
  lemma {:induction false} TallyWellFormed(ts: seq<Id>)
    ensures WellFormed(TallyOf(ts))
    decreases |ts|
  {
    if ts != [] {
      TallyWellFormed(ts[..|ts| - 1]);
    }
  }

  /** The count of one target: the number of votes it got, or no entry when
      it got none. */
  lemma {:induction false} TallyCount(ts: seq<Id>, t: Id)
    ensures Get(TallyOf(ts), t) == if t in ts then Some(multiset(ts)[t]) else None
    decreases |ts|
  {
    if ts != [] {
      var ps, x := ts[..|ts| - 1], ts[|ts| - 1];
      TallyCount(ps, t);
      OneMoreVote(ps, x, t);
      PutGet(TallyOf(ps), x, Get(TallyOf(ps), x).GetOr(0) + 1, t);
      assert ts == ps + [x];
    }
  }

  /** Appending a vote for `x` adds one to the multiplicity of `x` only. */
  lemma OneMoreVote(ps: seq<Id>, x: Id, t: Id)
    ensures multiset(ps + [x])[t] == multiset(ps)[t] + (if t == x then 1 else 0)
    ensures t in ps + [x] <==> t in ps || t == x
  {
    assert multiset(ps + [x]) == multiset(ps) + multiset{x};
  }

  /** The counting loop of `vote:submit`. */
  method CountVotes(ts: seq<Id>) returns (tally: Dict<nat>)
    ensures tally == TallyOf(ts)
  {
    tally := [];
    var i := 0;
    while i < |ts|
      invariant 0 <= i <= |ts|
      invariant tally == TallyOf(ts[..i])
    {
      assert ts[..i + 1][..i] == ts[..i];
      var t := ts[i];
      tally := Bump(tally, t);
      i := i + 1;
    }
    assert ts[..|ts|] == ts;
  }

  /** `Math.max(...Object.values(tally))` of a tally with at least one entry. */
  function MaxCount(tally: Dict<nat>): (m: nat)
    requires |tally| > 0
    ensures forall e :: e in tally ==> e.1 <= m
    ensures exists e :: e in tally && e.1 == m
  {
    if |tally| == 1 then tally[0].1
    else
      var rest := MaxCount(tally[1..]);
      assert forall e :: e in tally ==> e == tally[0] || e in tally[1..];
      if tally[0].1 >= rest then tally[0].1 else rest
  }

  /** The ids whose count is `m`, in tally order. */
  function Candidates(tally: Dict<nat>, m: nat): (cs: seq<Id>)
    ensures forall c :: c in cs <==> (c, m) in tally
  {
    if tally == [] then []
    else
      var rest := Candidates(tally[1..], m);
      assert forall e :: e in tally <==> e == tally[0] || e in tally[1..];
      (if tally[0].1 == m then [tally[0].0] else []) + rest
  }

  /** The player a complete round of votes `ts` eliminates. `pick` stands for
      `Math.random()`: `candidates[Math.floor(Math.random() * candidates.length)]`
      is modelled as `candidates[pick % |candidates|]`, which reaches every
      candidate. The eliminated player got a vote and no one got more votes. */
  function Eliminee(ts: seq<Id>, pick: nat): (e: Id)
    requires |ts| > 0
    ensures e in ts
    ensures forall t :: multiset(ts)[t] <= multiset(ts)[e]
  {
    TallyCounts(ts);
    var tally := TallyOf(ts);
    assert Get(tally, ts[0]).Some?;
    var m := MaxCount(tally);
    var cs := Candidates(tally, m);
    var w :| w in tally && w.1 == m;
    assert w.0 in cs;
    var e := cs[pick % |cs|];
    assert (e, m) in tally;
    assert Get(tally, e) == Some(m) by {
      var i :| 0 <= i < |tally| && tally[i] == (e, m);
      GetEntry(tally, e);
    }
    forall t ensures multiset(ts)[t] <= multiset(ts)[e] {
      if t in ts {
        assert (t, multiset(ts)[t]) in tally;
      }
    }
    e
  }

  /** The handler's own steps reach the same player: the tally of a
      non-empty round is non-empty, so is the list of top candidates, and
      the draw picks `Eliminee`. */
  lemma EliminationDraw(ts: seq<Id>, pick: nat)
    requires |ts| > 0
    ensures |TallyOf(ts)| > 0
    ensures |Candidates(TallyOf(ts), MaxCount(TallyOf(ts)))| > 0
    ensures Eliminee(ts, pick) ==
              var cs := Candidates(TallyOf(ts), MaxCount(TallyOf(ts))); cs[pick % |cs|]
  {
    TallyCounts(ts);
    var tally := TallyOf(ts);
    assert Get(tally, ts[0]).Some?;
    var w :| w in tally && w.1 == MaxCount(tally);
    assert w.0 in Candidates(tally, MaxCount(tally));
  }

  /** Conversely every player with a maximal tally is eliminated for some
      outcome of the random draw: the tie-break ranges over all of them. */
  lemma TieBreakCovers(ts: seq<Id>, c: Id)
    requires c in ts
    requires forall t :: multiset(ts)[t] <= multiset(ts)[c]
    ensures exists pick: nat :: Eliminee(ts, pick) == c
  {
    TallyCounts(ts);
    var tally := TallyOf(ts);
    var m := MaxCount(tally);
    assert (c, multiset(ts)[c]) in tally;
    var w :| w in tally && w.1 == m;
    assert Get(tally, w.0) == Some(w.1) by {
      var i :| 0 <= i < |tally| && tally[i] == w;
      GetEntry(tally, w.0);
    }
    assert m == multiset(ts)[c];
    var cs := Candidates(tally, m);
    assert c in cs;
    var k :| 0 <= k < |cs| && cs[k] == c;
    ModSmall(k, |cs|);
    assert Eliminee(ts, k) == c;
  }

  /** The round resolves once `Object.keys(votes).length === players.length`.
      Every voter is an active player, so this is exactly the moment every
      active player has voted; a repeat vote overwrites and never counts twice. */
  lemma ResolvesWhenAllVoted(votes: Dict<Id>, players: seq<Id>)
    requires WellFormed(votes) && Distinct(players)
    requires forall e :: e in votes ==> e.0 in players
    ensures |votes| == |players| <==> forall p :: p in players ==> p in Keys(votes)
  {
    forall k | k in Keys(votes) ensures k in players {
      var i :| 0 <= i < |votes| && Keys(votes)[i] == k;
      assert votes[i] in votes;
    }
    SameLengthCovers(Keys(votes), players);
  }
}
