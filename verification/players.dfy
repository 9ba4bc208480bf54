/** `Player`, `Player.bet`, and the player-list operations of `Game`:
    `remove_player` and the `broadcast` fan-out. */
module Players {
  import opened Wrappers
  import opened Seqs
  import opened Messages

  datatype Bet = Bet(kind: BetType, amount: int)

  /** A connected player. `id` stands for the Python object's identity (and
      with it its socket): two players are the same object exactly when their
      ids agree, and `remove_player` finds a player by it. */
  datatype Player = Player(id: nat, name: string, bets: seq<Bet>)

  /** The identities of the players, in list order. */
  function Ids(ps: seq<Player>): (r: seq<nat>)
    ensures |r| == |ps|
    ensures forall k :: 0 <= k < |ps| ==> r[k] == ps[k].id
  {
    seq(|ps|, k requires 0 <= k < |ps| => ps[k].id)
  }

  /** No player object is listed twice. */
  predicate DistinctIds(ps: seq<Player>) {
    Distinct(Ids(ps))
  }

  /** What one `player.send(message)` does: it returns, or it raises
      `WebSocketDisconnect`, or it raises `RuntimeError`. */
  datatype SendResult = Sent | Disconnected | RuntimeFailure

  /** `Player(name, socket)`: a new object, named as given, with no bets yet.
      `id` is the identity the new object gets. */
  function NewPlayer(id: nat, name: string): (p: Player)
    ensures p.id == id && p.name == name && p.bets == []
  {
    Player(id, name, [])
  }

  /** `Player.bet`: the bet is appended, earlier bets are kept, and the
      confirmation message is sent back to the player. */
  function PlaceBet(p: Player, kind: BetType, amount: int): (r: (Player, Message))
    ensures r.0.id == p.id && r.0.name == p.name
    ensures |r.0.bets| == |p.bets| + 1
    ensures r.0.bets[..|p.bets|] == p.bets
    ensures r.0.bets[|p.bets|] == Bet(kind, amount)
    ensures r.1 == BetMsg(kind, amount)
  {
    (p.(bets := p.bets + [Bet(kind, amount)]), BetMsg(kind, amount))
  }

  /** `Game.remove_player`: `list.remove` finds the first listed player that
      is the same object as `p`, and raises when there is none. */
  function RemovePlayer(players: seq<Player>, p: Player): (r: Result<seq<Player>, Fault>)
    ensures r.Success? <==> exists k :: 0 <= k < |players| && players[k].id == p.id
    ensures r.Failure? ==> r.error == NotInList
    ensures r.Success? ==> |r.value| == |players| - 1
    ensures r.Success? ==> Subseq(r.value, players)
    ensures r.Success? ==>
              forall i :: 0 <= i < |players| && players[i].id == p.id && FirstWithId(players, p.id, i) ==>
                r.value == players[..i] + players[i + 1..]
  {
    var ids := Ids(players);
    if p.id in ids then
      var i := IndexOf(ids, p.id);
      SubseqDropOne(players, i);
      NotInPrefix(ids, p.id, i);
      assert forall j :: 0 <= j < |players| && players[j].id == p.id && FirstWithId(players, p.id, j) ==> j == i;
      Success(players[..i] + players[i + 1..])
    else
      assert forall k :: 0 <= k < |players| ==> players[k].id == ids[k];
      Failure(NotInList)
  }

  /** No player before position `i` has identity `id`. */
  predicate FirstWithId(players: seq<Player>, id: nat, i: nat)
    requires i <= |players|
  {
    forall k :: 0 <= k < i ==> players[k].id != id
  }

  /** `p` is a different object from every listed player. */
  predicate Unlisted(p: Player, players: seq<Player>) {
    forall q :: q in players ==> q.id != p.id
  }

  /** When no player before position `i` is `p`'s object, none has its identity. */
  lemma UnlistedFirst(players: seq<Player>, p: Player, i: nat)
    requires i <= |players| && Unlisted(p, players[..i])
    ensures FirstWithId(players, p.id, i)
  {
    forall k | 0 <= k < i ensures players[k].id != p.id {
      assert players[k] == players[..i][k];
    }
  }

  /** `bet` changes the player object in place, so `remove_player` still
      finds a player after it has placed bets. */
  lemma RemoveAfterBet(others: seq<Player>, p: Player, kind: BetType, amount: int)
    requires Unlisted(p, others)
    ensures RemovePlayer(others + [p], PlaceBet(p, kind, amount).0) == Success(others)
  {
    var listed, q, n := others + [p], PlaceBet(p, kind, amount).0, |others|;
    assert listed[n].id == q.id;
    assert listed[..n] == others && listed[n + 1..] == [];
    UnlistedFirst(listed, p, n);
    var r := RemovePlayer(listed, q);
    assert r.Success? && FirstWithId(listed, q.id, n);
    assert r.value == listed[..n] + listed[n + 1..] == others;
  }

  /** Listing no object twice means listing no value twice. */
  lemma DistinctIdsDistinct(ps: seq<Player>)
    requires DistinctIds(ps)
    ensures Distinct(ps)
  {
    forall i, j | 0 <= i < j < |ps|
      ensures ps[i] != ps[j]
    {
      assert Ids(ps)[i] != Ids(ps)[j];
    }
  }

  /** A subsequence of a list without repeated objects has none either. */
  lemma SubseqDistinctIds(a: seq<Player>, b: seq<Player>)
    requires Subseq(a, b) && DistinctIds(b)
    ensures DistinctIds(a)
  {
    SubseqIds(a, b);
    SubseqDistinct(Ids(a), Ids(b));
  }

  lemma {:induction false} SubseqIds(a: seq<Player>, b: seq<Player>)
    requires Subseq(a, b)
    ensures Subseq(Ids(a), Ids(b))
    decreases |b|
  {
    if a != [] {
      assert Ids(b)[1..] == Ids(b[1..]);
      if a[0] == b[0] && Subseq(a[1..], b[1..]) {
        SubseqIds(a[1..], b[1..]);
        assert Ids(a)[1..] == Ids(a[1..]);
      } else {
        SubseqIds(a, b[1..]);
      }
    }
  }

  /** `remove_player` called with a player taken from a list without repeated
      objects removes that very entry, and the list still repeats none. */
  lemma RemoveListed(players: seq<Player>, p: Player)
    requires DistinctIds(players) && p in players
    ensures RemovePlayer(players, p) == Success(RemoveFirst(players, p))
    ensures DistinctIds(RemoveFirst(players, p))
  {
    var k := IndexOf(players, p);
    assert FirstWithId(players, p.id, k) by {
      forall m | 0 <= m < k ensures players[m].id != p.id {
        assert Ids(players)[m] != Ids(players)[k];
      }
    }
    SubseqDistinctIds(RemoveFirst(players, p), players);
  }

  // ---------------------------------------------------------------------------
  // What `broadcast` does to each player of the list it starts with

  /** The fate of a player during one `broadcast`. */
  datatype Fate =
    | Delivered  // the send returned; the player stays
    | Removed    // the send raised; the player was removed
    | Skipped    // never visited: the iterator moved past it after a removal

  /** The fates of the players that stay listed. */
  const Kept: set<Fate> := {Delivered, Skipped}

  /** The fate of each player, read left to right over the list as it was
      when `broadcast` began. `afterRemoval` says whether the previous
      player was just removed. */
  function Fates(ps: seq<Player>, outcome: Player -> SendResult, afterRemoval: bool): (f: seq<Fate>)
    ensures |f| == |ps|
    decreases |ps|
  {
    if ps == [] then []
    else if afterRemoval then [Skipped] + Fates(ps[1..], outcome, false)
    else if outcome(ps[0]) == Sent then [Delivered] + Fates(ps[1..], outcome, false)
    else [Removed] + Fates(ps[1..], outcome, true)
  }

  /** The players, in order, whose fate is one of `which`. */
  function Pick(ps: seq<Player>, f: seq<Fate>, which: set<Fate>): seq<Player>
    requires |ps| == |f|
    decreases |ps|
  {
    if ps == [] then []
    else (if f[0] in which then [ps[0]] else []) + Pick(ps[1..], f[1..], which)
  }

  /** `Game.broadcast` as written: a `for` loop over the live list that calls
      `remove_player` on every player whose send raised. Python's list
      iterator walks by position, so after a removal it moves past the
      player that slid into the freed position: that player is neither sent
      the message nor removed. `reached` lists the players the message was
      delivered to. The list never holds the same player object twice:
      `add_player` only ever appends a newly built `Player`, so removing the
      visited player removes that very entry. */
  method Broadcast(players: seq<Player>, outcome: Player -> SendResult)
    returns (remaining: seq<Player>, reached: seq<Player>)
    requires DistinctIds(players)
    ensures remaining == Pick(players, Fates(players, outcome, false), Kept)
    ensures reached == Pick(players, Fates(players, outcome, false), {Delivered})
    ensures Subseq(remaining, players)
    ensures forall p :: p in players && p !in remaining ==> outcome(p) != Sent
    ensures forall p :: p in reached ==> outcome(p) == Sent
    ensures (forall k :: 0 <= k < |players| ==> outcome(players[k]) == Sent) ==>
              remaining == players && reached == players
  {
    remaining, reached := players, [];
    var i := 0;
    DistinctIdsDistinct(players);
    ghost var F := Fates(players, outcome, false);
    ghost var goal := (Pick(players, F, Kept), Pick(players, F, {Delivered}));
    // The players[..j] are accounted for, `kept` being those of them still
    // listed; a player jumped over is accounted for when its predecessor is
    // removed.
    ghost var j: int, kept: seq<Player> := 0, [];
    while i < |remaining|
      invariant Walked(players, outcome, goal, j, kept, remaining, reached)
      invariant DistinctIds(remaining)
      invariant i == |kept| || (j == |players| && i == |kept| + 1)
      decreases |remaining| - i
    {
      var p := remaining[i];
      ghost var j', kept' := WalkStep(players, outcome, goal, j, kept, remaining, reached);
      i := i + 1;
      if outcome(p) == Sent {
        reached := reached + [p];
      } else {
        RemoveListed(remaining, p);
        remaining := RemovePlayer(remaining, p).value;
      }
      j, kept := j', kept';
    }
    WalkDone(players, outcome, goal, j, kept, remaining, reached);
    PickFacts(players, outcome);
  }

  /** The state of `Broadcast` after the first `j` players of the original
      list are accounted for: `goal` is what the whole walk yields, and it
      equals what is kept and reached so far followed by what the rest of
      the original list yields. */
  ghost predicate Walked(players: seq<Player>, outcome: Player -> SendResult,
                         goal: (seq<Player>, seq<Player>), j: int,
                         kept: seq<Player>, remaining: seq<Player>, reached: seq<Player>)
  {
    && 0 <= j <= |players|
    && remaining == kept + players[j..]
    && Distinct(remaining)
    && goal.0 == kept + Pick(players[j..], Fates(players[j..], outcome, false), Kept)
    && goal.1 == reached + Pick(players[j..], Fates(players[j..], outcome, false), {Delivered})
  }

  /** One turn of the loop: the player at the iterator's position is the
      next unaccounted one of the original list; delivering to it or
      removing it (and jumping over its successor) keeps the accounting. */
  lemma WalkStep(players: seq<Player>, outcome: Player -> SendResult,
                 goal: (seq<Player>, seq<Player>), j: int,
                 kept: seq<Player>, remaining: seq<Player>, reached: seq<Player>)
    returns (j': int, kept': seq<Player>)
    requires Walked(players, outcome, goal, j, kept, remaining, reached)
    requires |kept| < |remaining|
    ensures remaining[|kept|] in remaining
    ensures outcome(remaining[|kept|]) == Sent ==>
              Walked(players, outcome, goal, j', kept', remaining, reached + [remaining[|kept|]])
    ensures outcome(remaining[|kept|]) != Sent ==>
              Walked(players, outcome, goal, j', kept', RemoveFirst(remaining, remaining[|kept|]), reached)
    ensures |kept'| == |kept| + 1 || (j' == |players| && kept' == kept)
  {
    WalkHead(players, outcome, goal, j, kept, remaining, reached);
    if outcome(players[j]) == Sent {
      WalkSent(players, outcome, goal, j, kept, remaining, reached);
      j', kept' := j + 1, kept + [players[j]];
    } else if j + 1 < |players| {
      WalkRemoved(players, outcome, goal, j, kept, remaining, reached);
      j', kept' := j + 2, kept + [players[j + 1]];
    } else {
      WalkRemovedLast(players, outcome, goal, j, kept, remaining, reached);
      j', kept' := j + 1, kept;
    }
  }

  lemma WalkHead(players: seq<Player>, outcome: Player -> SendResult,
                 goal: (seq<Player>, seq<Player>), j: int,
                 kept: seq<Player>, remaining: seq<Player>, reached: seq<Player>)
    requires Walked(players, outcome, goal, j, kept, remaining, reached)
    requires |kept| < |remaining|
    ensures j < |players| && remaining[|kept|] == players[j]
  {
  }

  lemma WalkSent(players: seq<Player>, outcome: Player -> SendResult,
                 goal: (seq<Player>, seq<Player>), j: int,
                 kept: seq<Player>, remaining: seq<Player>, reached: seq<Player>)
    requires Walked(players, outcome, goal, j, kept, remaining, reached)
    requires j < |players| && outcome(players[j]) == Sent
    ensures Walked(players, outcome, goal, j + 1, kept + [players[j]], remaining, reached + [players[j]])
  {
    var p := players[j];
    PickStep(players, outcome, j, false);
    ConsAssoc(kept, p, players[j + 1..]);
    ConsAssoc(kept, p, Pick(players[j + 1..], Fates(players[j + 1..], outcome, false), Kept));
    ConsAssoc(reached, p, Pick(players[j + 1..], Fates(players[j + 1..], outcome, false), {Delivered}));
  }

  lemma WalkRemoved(players: seq<Player>, outcome: Player -> SendResult,
                    goal: (seq<Player>, seq<Player>), j: int,
                    kept: seq<Player>, remaining: seq<Player>, reached: seq<Player>)
    requires Walked(players, outcome, goal, j, kept, remaining, reached)
    requires j + 1 < |players| && outcome(players[j]) != Sent
    ensures players[j] in remaining
    ensures Walked(players, outcome, goal, j + 2, kept + [players[j + 1]],
                   RemoveFirst(remaining, players[j]), reached)
  {
    var q := players[j + 1];
    RemoveStep(kept, players, j);
    PickStep(players, outcome, j, false);
    PickStep(players, outcome, j + 1, true);
    ConsAssoc(kept, q, players[j + 2..]);
    ConsAssoc(kept, q, Pick(players[j + 2..], Fates(players[j + 2..], outcome, false), Kept));
  }

  lemma WalkRemovedLast(players: seq<Player>, outcome: Player -> SendResult,
                        goal: (seq<Player>, seq<Player>), j: int,
                        kept: seq<Player>, remaining: seq<Player>, reached: seq<Player>)
    requires Walked(players, outcome, goal, j, kept, remaining, reached)
    requires j + 1 == |players| && outcome(players[j]) != Sent
    ensures players[j] in remaining
    ensures Walked(players, outcome, goal, j + 1, kept, RemoveFirst(remaining, players[j]), reached)
  {
    RemoveStep(kept, players, j);
    PickStep(players, outcome, j, false);
  }

  lemma WalkDone(players: seq<Player>, outcome: Player -> SendResult,
                 goal: (seq<Player>, seq<Player>), j: int,
                 kept: seq<Player>, remaining: seq<Player>, reached: seq<Player>)
    requires Walked(players, outcome, goal, j, kept, remaining, reached)
    requires |kept| >= |remaining|
    ensures remaining == goal.0 && reached == goal.1
  {
    assert players[j..] == [];
  }

  /** Unfolding the fate of one more player of the original list. */
  lemma PickStep(players: seq<Player>, outcome: Player -> SendResult, j: nat, skip: bool)
    requires j < |players|
    ensures players[j..] == [players[j]] + players[j + 1..]
    ensures
      var fate := if skip then Skipped else if outcome(players[j]) == Sent then Delivered else Removed;
      var next := !skip && outcome(players[j]) != Sent;
      && Pick(players[j..], Fates(players[j..], outcome, skip), Kept)
           == (if fate in Kept then [players[j]] else [])
              + Pick(players[j + 1..], Fates(players[j + 1..], outcome, next), Kept)
      && Pick(players[j..], Fates(players[j..], outcome, skip), {Delivered})
           == (if fate == Delivered then [players[j]] else [])
              + Pick(players[j + 1..], Fates(players[j + 1..], outcome, next), {Delivered})
  {
    assert players[j..][1..] == players[j + 1..];
  }

  lemma ConsAssoc(a: seq<Player>, x: Player, b: seq<Player>)
    ensures a + ([x] + b) == (a + [x]) + b
  {
  }

  /** `remove_player` on the player at the head of the unvisited part. */
  lemma RemoveStep(kept: seq<Player>, players: seq<Player>, j: nat)
    requires j < |players| && Distinct(kept + players[j..])
    ensures players[j] in kept + players[j..]
    ensures RemoveFirst(kept + players[j..], players[j]) == kept + players[j + 1..]
    ensures Distinct(kept + players[j + 1..])
  {
    assert kept + players[j..] == kept + [players[j]] + players[j + 1..];
    DistinctDrop(kept, players[j], players[j + 1..]);
    RemoveAfterPrefix(kept, players[j], players[j + 1..]);
  }

  lemma DistinctDrop(a: seq<Player>, x: Player, b: seq<Player>)
    requires Distinct(a + [x] + b)
    ensures x !in a
    ensures Distinct(a + b)
  {
    var s := a + [x] + b;
    forall k | 0 <= k < |a|
      ensures a[k] != x
    {
      assert s[k] == a[k] && s[|a|] == x;
    }
    forall m, n | 0 <= m < n < |a + b|
      ensures (a + b)[m] != (a + b)[n]
    {
      var m' := if m < |a| then m else m + 1;
      var n' := if n < |a| then n else n + 1;
      assert (a + b)[m] == s[m'] && (a + b)[n] == s[n'];
    }
  }

  /** Removing an element that does not occur in the prefix removes it from the rest. */
  lemma RemoveAfterPrefix(a: seq<Player>, x: Player, b: seq<Player>)
    requires x !in a
    ensures RemoveFirst(a + [x] + b, x) == a + b
  {
    var s := a + [x] + b;
    assert s[|a|] == x && s[..|a|] == a && s[|a| + 1..] == b;
  }

  /** What the fates say about the players of the list. */
  lemma PickFacts(players: seq<Player>, outcome: Player -> SendResult)
    ensures Subseq(Pick(players, Fates(players, outcome, false), Kept), players)
    ensures forall p :: p in players && p !in Pick(players, Fates(players, outcome, false), Kept) ==>
              outcome(p) != Sent
    ensures forall p :: p in Pick(players, Fates(players, outcome, false), {Delivered}) ==>
              outcome(p) == Sent
    ensures (forall k :: 0 <= k < |players| ==> outcome(players[k]) == Sent) ==>
              Pick(players, Fates(players, outcome, false), Kept) == players
              && Pick(players, Fates(players, outcome, false), {Delivered}) == players
  {
    var F := Fates(players, outcome, false);
    PickSubseq(players, F, Kept);
    forall p | p in players && p !in Pick(players, F, Kept)
      ensures outcome(p) != Sent
    {
      RemovedFailed(players, outcome, p);
    }
    forall p | p in Pick(players, F, {Delivered})
      ensures outcome(p) == Sent
    {
      DeliveredSent(players, outcome, p);
    }
    if forall k :: 0 <= k < |players| ==> outcome(players[k]) == Sent {
      AllSentFates(players, outcome);
      PickAll(players, F, Kept);
      PickAll(players, F, {Delivered});
    }
  }

  lemma RemovedFailed(players: seq<Player>, outcome: Player -> SendResult, p: Player)
    requires p in players && p !in Pick(players, Fates(players, outcome, false), Kept)
    ensures outcome(p) != Sent
  {
    var F := Fates(players, outcome, false);
    var k :| 0 <= k < |players| && players[k] == p;
    if F[k] in Kept {
      PickHas(players, F, Kept, k);
    }
    FatesRule(players, outcome, false, k);
  }

  lemma DeliveredSent(players: seq<Player>, outcome: Player -> SendResult, p: Player)
    requires p in Pick(players, Fates(players, outcome, false), {Delivered})
    ensures outcome(p) == Sent
  {
    var k := PickFrom(players, Fates(players, outcome, false), {Delivered}, p);
    FatesRule(players, outcome, false, k);
  }

  lemma {:induction false} PickSubseq(ps: seq<Player>, f: seq<Fate>, which: set<Fate>)
    requires |ps| == |f|
    ensures Subseq(Pick(ps, f, which), ps)
    decreases |ps|
  {
    if ps != [] {
      PickSubseq(ps[1..], f[1..], which);
      var rest := Pick(ps[1..], f[1..], which);
      if f[0] in which {
        assert Pick(ps, f, which) == [ps[0]] + rest;
        assert ([ps[0]] + rest)[1..] == rest;
      } else {
        assert Pick(ps, f, which) == rest;
      }
    } else {
      assert Pick(ps, f, which) == [];
    }
  }

  /** A player whose fate is in `which` is picked. */
  lemma {:induction false} PickHas(ps: seq<Player>, f: seq<Fate>, which: set<Fate>, k: nat)
    requires |ps| == |f| && k < |ps| && f[k] in which
    ensures ps[k] in Pick(ps, f, which)
    decreases k
  {
    if k > 0 {
      PickHas(ps[1..], f[1..], which, k - 1);
    }
  }

  /** A picked player comes from a position whose fate is in `which`. */
  lemma {:induction false} PickFrom(ps: seq<Player>, f: seq<Fate>, which: set<Fate>, x: Player) returns (k: nat)
    requires |ps| == |f| && x in Pick(ps, f, which)
    ensures k < |ps| && ps[k] == x && f[k] in which
    decreases |ps|
  {
    if f[0] in which && ps[0] == x {
      k := 0;
    } else {
      var rest := Pick(ps[1..], f[1..], which);
      assert x in rest;
      var k' := PickFrom(ps[1..], f[1..], which, x);
      k := k' + 1;
    }
  }

  lemma {:induction false} PickAll(ps: seq<Player>, f: seq<Fate>, which: set<Fate>)
    requires |ps| == |f|
    requires forall k :: 0 <= k < |f| ==> f[k] in which
    ensures Pick(ps, f, which) == ps
    decreases |ps|
  {
    if ps != [] {
      PickAll(ps[1..], f[1..], which);
      assert ps == [ps[0]] + ps[1..];
    }
  }

  lemma {:induction false} AllSentFates(ps: seq<Player>, outcome: Player -> SendResult)
    requires forall k :: 0 <= k < |ps| ==> outcome(ps[k]) == Sent
    ensures forall k :: 0 <= k < |ps| ==> Fates(ps, outcome, false)[k] == Delivered
    decreases |ps|
  {
    if ps != [] {
      AllSentFates(ps[1..], outcome);
      var f := Fates(ps, outcome, false);
      assert f == [Delivered] + Fates(ps[1..], outcome, false);
      forall k | 0 <= k < |ps|
        ensures f[k] == Delivered
      {
        if k > 0 {
          assert f[k] == Fates(ps[1..], outcome, false)[k - 1];
        }
      }
    }
  }

  /** The reading of `Fates`: a player is skipped exactly when the player
      before it was removed (or, for the first, when `afterRemoval` holds);
      a visited player is delivered to exactly when its send succeeds. */
  lemma {:induction false} FatesRule(ps: seq<Player>, outcome: Player -> SendResult, afterRemoval: bool, k: nat)
    requires k < |ps|
    ensures Fates(ps, outcome, afterRemoval)[k] == Skipped <==>
              (if k == 0 then afterRemoval else Fates(ps, outcome, afterRemoval)[k - 1] == Removed)
    ensures Fates(ps, outcome, afterRemoval)[k] != Skipped ==>
              (Fates(ps, outcome, afterRemoval)[k] == Delivered <==> outcome(ps[k]) == Sent)
    decreases k
  {
    var f := Fates(ps, outcome, afterRemoval);
    if k > 0 {
      var next := !afterRemoval && outcome(ps[0]) != Sent;
      var g := Fates(ps[1..], outcome, next);
      assert f == [f[0]] + g;
      FatesRule(ps[1..], outcome, next, k - 1);
      if k == 1 {
        assert f[0] == Removed <==> next;
      } else {
        assert f[k - 1] == g[k - 2];
      }
    }
  }

  /** Two players whose sends both fail: the first is removed, the second is
      jumped over, so it stays listed and never receives the message. */
  lemma SkipAfterRemoval(a: Player, b: Player, outcome: Player -> SendResult)
    requires a.id != b.id && outcome(a) != Sent && outcome(b) != Sent
    ensures DistinctIds([a, b])
    ensures Pick([a, b], Fates([a, b], outcome, false), Kept) == [b]
    ensures Pick([a, b], Fates([a, b], outcome, false), {Delivered}) == []
  {
    var f := Fates([a, b], outcome, false);
    assert [a, b][1..] == [b] && [b][1..] == [];
    assert Fates([b], outcome, true) == [Skipped];
    assert f == [Removed, Skipped];
    assert f[1..] == [Skipped] && f[1..][1..] == [];
    assert Removed !in Kept && Skipped in Kept;
    assert Pick([b], [Skipped], Kept) == [b];
    assert Pick([b], [Skipped], {Delivered}) == [];
  }

  /** The players whose send succeeds, in order. */
  function SentOnly(ps: seq<Player>, outcome: Player -> SendResult): (r: seq<Player>)
    ensures forall k :: 0 <= k < |r| ==> outcome(r[k]) == Sent
    decreases |ps|
  {
    if ps == [] then []
    else
      SentOnly(ps[..|ps| - 1], outcome)
        + (if outcome(ps[|ps| - 1]) == Sent then [ps[|ps| - 1]] else [])
  }

  /** `broadcast` as evidently intended: iterate over a snapshot of the list
      (`for player in list(self.players)`), so that every player is visited,
      every failing player is removed and every other is sent the message. */
  method BroadcastSnapshot(players: seq<Player>, outcome: Player -> SendResult)
    returns (remaining: seq<Player>, reached: seq<Player>)
    requires DistinctIds(players)
    ensures remaining == SentOnly(players, outcome)
    ensures reached == SentOnly(players, outcome)
    ensures Subseq(remaining, players)
    ensures forall p :: p in remaining <==> p in players && outcome(p) == Sent
  {
    remaining, reached := players, [];
    var i := 0;
    while i < |players|
      invariant i <= |players|
      invariant reached == SentOnly(players[..i], outcome)
      invariant remaining == reached + players[i..]
      invariant DistinctIds(remaining)
    {
      var p := players[i];
      SnapshotStep(players, outcome, i, reached);
      if outcome(p) == Sent {
        reached := reached + [p];
      } else {
        remaining := RemovePlayer(remaining, p).value;
      }
      i := i + 1;
    }
    assert players[..i] == players;
    SentOnlyFacts(players, outcome);
  }

  /** What the snapshot broadcast keeps, in order and as a set. */
  lemma SentOnlyFacts(players: seq<Player>, outcome: Player -> SendResult)
    ensures Subseq(SentOnly(players, outcome), players)
    ensures forall p :: p in SentOnly(players, outcome) <==> p in players && outcome(p) == Sent
  {
    SentOnlySubseq(players, outcome);
    forall p ensures p in SentOnly(players, outcome) <==> p in players && outcome(p) == Sent {
      SentOnlyMembers(players, outcome, p);
    }
  }

  /** One turn of the snapshot loop keeps its invariant. */
  lemma SnapshotStep(players: seq<Player>, outcome: Player -> SendResult, i: nat, reached: seq<Player>)
    requires i < |players| && reached == SentOnly(players[..i], outcome)
    requires DistinctIds(reached + players[i..])
    ensures outcome(players[i]) == Sent ==>
              && reached + [players[i]] == SentOnly(players[..i + 1], outcome)
              && reached + players[i..] == (reached + [players[i]]) + players[i + 1..]
              && DistinctIds((reached + [players[i]]) + players[i + 1..])
    ensures outcome(players[i]) != Sent ==>
              && reached == SentOnly(players[..i + 1], outcome)
              && RemovePlayer(reached + players[i..], players[i]) == Success(reached + players[i + 1..])
              && DistinctIds(reached + players[i + 1..])
  {
    var p := players[i];
    SentOnlyStep(players, outcome, i);
    assert players[i..] == [p] + players[i + 1..];
    if outcome(p) != Sent {
      assert reached + players[i..] == reached + [p] + players[i + 1..];
      RemoveAfterPrefix(reached, p, players[i + 1..]);
      RemoveListed(reached + players[i..], p);
    }
  }

  lemma SentOnlyStep(players: seq<Player>, outcome: Player -> SendResult, i: nat)
    requires i < |players|
    ensures SentOnly(players[..i + 1], outcome)
            == SentOnly(players[..i], outcome) + (if outcome(players[i]) == Sent then [players[i]] else [])
  {
    assert players[..i + 1][..i] == players[..i];
  }

  /** What the snapshot broadcast keeps: exactly the players whose send succeeded. */
  lemma {:induction false} SentOnlyMembers(ps: seq<Player>, outcome: Player -> SendResult, p: Player)
    ensures p in SentOnly(ps, outcome) <==> p in ps && outcome(p) == Sent
    decreases |ps|
  {
    if ps != [] {
      var init := ps[..|ps| - 1];
      assert ps == init + [ps[|ps| - 1]];
      SentOnlyMembers(init, outcome, p);
    }
  }

  /** The snapshot broadcast keeps the order of the players it keeps. */
  lemma {:induction false} SentOnlySubseq(ps: seq<Player>, outcome: Player -> SendResult)
    ensures Subseq(SentOnly(ps, outcome), ps)
    decreases |ps|
  {
    if ps == [] {
      assert SentOnly(ps, outcome) == [];
    } else {
      var init, last := ps[..|ps| - 1], ps[|ps| - 1];
      assert ps == init + [last];
      SentOnlySubseq(init, outcome);
      if outcome(last) == Sent {
        assert SentOnly(ps, outcome) == SentOnly(init, outcome) + [last];
        SubseqSnocBoth(SentOnly(init, outcome), init, last);
      } else {
        assert SentOnly(ps, outcome) == SentOnly(init, outcome);
        SubseqSnoc(SentOnly(init, outcome), init, last);
      }
    }
  }
}
