/** Claiming an identity: when it is safe, and that the order in which the pending likes
    are then resolved does not matter for who ends up matched. */
module ClaimedIdentities {
  import opened Prelude
  import opened CreditsService
  import opened LikeMatch
  import opened LikeMatchInvariant
  import opened LikeMatchOutcomes
  import opened LikeMatchRuns

  // ---- The claimant's own like ----

  /** The claim handler, run on these tables, can end with a match of the user with themselves. */
  ghost predicate CanMatchThemselves(db: Db, user: UserId) {
    exists order, revs, ids :: Enabled(db, HandleClaimed(user, order, revs, ids))
                               && IsActive(Next(db, HandleClaimed(user, order, revs, ids)), Pair(user, user))
  }

  /** A user who claims an identity can be matched with themselves exactly when they had a
      like of their own on it that is undeleted, PENDING and passes the filter. */
  lemma SelfMatchExactly(db: Db, user: UserId, v: PublicValue, newIdentity: IdentityId)
    requires Inv(db) && BlocksOk(db) && user in db.users && newIdentity !in db.owners && CanClaim(db, user, v)
    ensures CanMatchThemselves(Claim(db, user, v, newIdentity), user)
            <==> v in db.values && exists id :: id in db.likes && SentTo(db.likes[id], user, db.values[v])
                                                && BlocksReliking(db.likes[id], db.cutoff)
  {
    var db' := Claim(db, user, v, newIdentity);
    if NoOwnLike(db, user, v) {
      ClaimKeepsInv(db, user, v, newIdentity);
      SoundTablesMatchNobodyWithThemselves(db', user);
    } else {
      var id :| id in db.likes && SentTo(db.likes[id], user, db.values[v]) && BlocksReliking(db.likes[id], db.cutoff);
      OwnLikeMatchesItself(db, user, v, newIdentity, id, 0);
      HandlerReaches(db', user, id, 0);
    }
  }

  lemma SoundTablesMatchNobodyWithThemselves(db: Db, user: UserId)
    requires Inv(db)
    ensures !CanMatchThemselves(db, user)
  {
    forall order, revs, ids | Enabled(db, HandleClaimed(user, order, revs, ids))
      ensures !IsActive(Next(db, HandleClaimed(user, order, revs, ids)), Pair(user, user))
    {
      var db' := Next(db, HandleClaimed(user, order, revs, ids));
      StepKeepsInv(db, HandleClaimed(user, order, revs, ids));
      NoSelfMatch(db', user);
    }
  }

  lemma NoSelfMatch(db: Db, user: UserId)
    requires MatchesOk(db)
    ensures Pair(user, user) !in db.matches
  {
    forall p | p in db.matches ensures p.one < p.two {
      assert MatchOk(db, p, db.matches[p]);
    }
  }

  /** The resolver, which does not compare sender and owner, then takes that like for its
      own reverse like and commits. */
  lemma OwnLikeMatchesItself(db: Db, user: UserId, v: PublicValue, newIdentity: IdentityId, id: LikeId, newId: MatchId)
    requires Inv(db) && BlocksOk(db) && CanClaim(db, user, v) && v in db.values
    requires id in db.likes && SentTo(db.likes[id], user, db.values[v]) && BlocksReliking(db.likes[id], db.cutoff)
    ensures var db' := Claim(db, user, v, newIdentity);
            && IsActionable(db', user, id)
            && ReverseChoice(db', user, user, Some(id))
            && IsActive(Resolve(db', SummaryOf(db', id), Some(id), newId).0, Pair(user, user))
  {
    var db' := Claim(db, user, v, newIdentity);
    assert LikeOk(db, db.likes[id]);
    NoSelfMatch(db, user);
    assert !IsBlocked(db', user, user);
    forall q | q in db.matches ensures db.matches[q].likeOne != id && db.matches[q].likeTwo != id {
      assert MatchOk(db, q, db.matches[q]);
    }
  }

  // ---- A run of the handler that starts with a given like ----

  lemma ChooseReverse(db: Db, a: UserId, b: UserId) returns (rev: Option<LikeId>)
    ensures ReverseChoice(db, a, b, rev)
  {
    if id :| IsReverse(db, a, b, id) {
      rev := Some(id);
    } else {
      rev := None;
    }
  }

  /** Whatever there is to resolve, the lookups have answers. */
  lemma {:induction false} ChooseAll(db: Db, todo: seq<Summary>) returns (revs: seq<Option<LikeId>>, ids: seq<MatchId>)
    ensures |revs| == |ids| == |todo| && LoopChoices(db, todo, revs, ids)
    decreases |todo|
  {
    if todo == [] {
      revs, ids := [], [];
    } else {
      var rev := None;
      if todo[0].owner.Some? {
        rev := ChooseReverse(db, todo[0].sender, todo[0].owner.value);
      }
      var restRevs, restIds := ChooseAll(Resolve(db, todo[0], rev, 0).0, todo[1..]);
      revs, ids := [rev] + restRevs, [0] + restIds;
      assert revs[1..] == restRevs && ids[1..] == restIds;
    }
  }

  lemma {:induction false} Enumerate(s: set<LikeId>) returns (order: seq<LikeId>)
    ensures forall id :: id in order <==> id in s
    ensures forall j, k :: 0 <= j < k < |order| ==> order[j] != order[k]
    decreases s
  {
    if s == {} {
      order := [];
    } else {
      var id :| id in s;
      var rest := Enumerate(s - {id});
      order := [id] + rest;
    }
  }

  lemma ListFrom(db: Db, user: UserId, first: LikeId) returns (order: seq<LikeId>)
    requires IsActionable(db, user, first)
    ensures ListsActionable(db, user, order) && |order| > 0 && order[0] == first
  {
    var others := set id | id in db.likes && IsActionable(db, user, id) && id != first;
    var rest := Enumerate(others);
    order := [first] + rest;
    forall k | 0 <= k < |order| ensures IsActionable(db, user, order[k]) {
      assert k > 0 ==> order[k] in rest;
    }
    forall id | IsActionable(db, user, id) ensures id in order {
      assert id == first || id in rest;
    }
    forall j, k | 0 <= j < k < |order| ensures order[j] != order[k] {
      assert j == 0 ==> order[k] in rest;
    }
  }

  /** If resolving an actionable like against itself makes the pair of the user with
      themselves ACTIVE, then some run of the handler does. */
  lemma HandlerReaches(db: Db, user: UserId, id: LikeId, newId: MatchId)
    requires IsActionable(db, user, id) && db.likes[id].sender == user && ReverseChoice(db, user, user, Some(id))
    requires IsActive(Resolve(db, SummaryOf(db, id), Some(id), newId).0, Pair(user, user))
    ensures CanMatchThemselves(db, user)
  {
    var order := ListFrom(db, user, id);
    var todo := Summaries(db, order);
    var db1 := Resolve(db, todo[0], Some(id), newId).0;
    var restRevs, restIds := ChooseAll(db1, todo[1..]);
    var revs, ids := [Some(id)] + restRevs, [newId] + restIds;
    assert revs[1..] == restRevs && ids[1..] == restIds;
    assert LoopChoices(db, todo, revs, ids);
    ResolveAllStaysActive(db1, todo[1..], restRevs, restIds, Pair(user, user));
    assert Enabled(db, HandleClaimed(user, order, revs, ids));
    assert IsActive(Next(db, HandleClaimed(user, order, revs, ids)), Pair(user, user));
  }

  // ---- The order of resolution ----

  /** With this choice of reverse like, resolving the summary can match its sender. */
  ghost predicate Joins(db: Db, user: UserId, s: Summary, choose: UserId -> Option<LikeId>) {
    && choose(s.sender).Some?
    && choose(s.sender).value in db.likes
    && Compatible(s.intent, db.likes[choose(s.sender).value].intent)
    && !IsBlocked(db, s.sender, user)
  }

  ghost predicate SomeJoins(db: Db, user: UserId, todo: seq<Summary>, choose: UserId -> Option<LikeId>, p: Pair) {
    exists k :: 0 <= k < |todo| && p == Sorted(todo[k].sender, user) && Joins(db, user, todo[k], choose)
  }

  /** As long as a pair is not matched yet, its lookup returns the fixed choice. */
  ghost predicate FixedChoices(db: Db, user: UserId, todo: seq<Summary>, revs: seq<Option<LikeId>>, ids: seq<MatchId>,
                               choose: UserId -> Option<LikeId>)
    requires |todo| == |revs| == |ids|
    decreases |todo|
  {
    todo == [] ||
    (&& (!IsActive(db, Sorted(todo[0].sender, user)) ==> revs[0] == choose(todo[0].sender))
     && FixedChoices(Resolve(db, todo[0], revs[0], ids[0]).0, user, todo[1..], revs[1..], ids[1..], choose))
  }

  /** Such a choice stays a valid answer of the lookup until its pair is matched. */
  lemma ChoiceStaysValid(db: Db, user: UserId, s: Summary, rev: Option<LikeId>, newId: MatchId, other: UserId, choice: Option<LikeId>)
    requires Inv(db) && Current(db, s) && s.owner == Some(user) && ReverseChoice(db, s.sender, user, rev)
    requires ReverseChoice(db, other, user, choice)
    requires !IsActive(Resolve(db, s, rev, newId).0, Sorted(other, user))
    ensures ReverseChoice(Resolve(db, s, rev, newId).0, other, user, choice)
  {
    var db' := Resolve(db, s, rev, newId).0;
    if rev.Some? && Eligible(db, s.sender, user, s.intent, db.likes[rev.value].intent) {
      ResolveCommits(db, s, rev.value, newId);
      assert LikeOk(db, db.likes[s.id]);
      assert other != s.sender;
      assert forall id :: IsReverse(db', other, user, id) <==> IsReverse(db, other, user, id);
    }
  }

  lemma ResolveJoins(db: Db, user: UserId, s: Summary, rev: Option<LikeId>, newId: MatchId, choose: UserId -> Option<LikeId>, p: Pair)
    requires Inv(db) && Current(db, s) && s.owner == Some(user) && ReverseChoice(db, s.sender, user, rev)
    requires !IsActive(db, Sorted(s.sender, user)) ==> rev == choose(s.sender)
    ensures IsActive(Resolve(db, s, rev, newId).0, p) <==>
              IsActive(db, p) || (p == Sorted(s.sender, user) && Joins(db, user, s, choose))
  {
    var db' := Resolve(db, s, rev, newId).0;
    if rev.Some? && Eligible(db, s.sender, user, s.intent, db.likes[rev.value].intent) {
      ResolveCommits(db, s, rev.value, newId);
    }
  }

  lemma JoinsUnchanged(db: Db, user: UserId, s: Summary, rev: Option<LikeId>, newId: MatchId, other: Summary, choose: UserId -> Option<LikeId>)
    requires Inv(db) && Current(db, s) && s.owner == Some(user) && ReverseChoice(db, s.sender, user, rev)
    ensures Joins(Resolve(db, s, rev, newId).0, user, other, choose) <==> Joins(db, user, other, choose)
  {
    var db' := Resolve(db, s, rev, newId).0;
    ResolveKeepsBlocks(db, s, rev, newId);
    assert IsBlocked(db', other.sender, user) <==> IsBlocked(db, other.sender, user) by {
      assert forall k :: k in db.blocks && BlockStands(db.blocks[k], other.sender, user) ==> BlockStands(db'.blocks[k], other.sender, user);
    }
    if rev.Some? && Eligible(db, s.sender, user, s.intent, db.likes[rev.value].intent) {
      ResolveCommits(db, s, rev.value, newId);
    }
  }

  /** The pairs that are ACTIVE at the end, in terms of the state before the loop only. */
  lemma {:induction false} ActiveAfterClaim(db: Db, user: UserId, todo: seq<Summary>, revs: seq<Option<LikeId>>, ids: seq<MatchId>,
                                            choose: UserId -> Option<LikeId>, p: Pair)
    requires |todo| == |revs| == |ids|
    requires Inv(db) && AllCurrent(db, todo) && AllTowards(todo, user) && LoopChoices(db, todo, revs, ids)
    requires FixedChoices(db, user, todo, revs, ids, choose)
    ensures IsActive(ResolveAll(db, todo, revs, ids), p) <==>
              IsActive(db, p) || SomeJoins(db, user, todo, choose, p)
    decreases |todo|
  {
    if todo != [] {
      var s := todo[0];
      var db1 := Resolve(db, s, revs[0], ids[0]).0;
      ResolveKeepsInv(db, s, revs[0], ids[0]);
      ResolveKeepsOthersCurrent(db, user, todo, revs[0], ids[0]);
      ResolveJoins(db, user, s, revs[0], ids[0], choose, p);
      ActiveAfterClaim(db1, user, todo[1..], revs[1..], ids[1..], choose, p);
      forall k | 0 <= k < |todo[1..]| ensures Joins(db1, user, todo[1..][k], choose) <==> Joins(db, user, todo[1..][k], choose) {
        JoinsUnchanged(db, user, s, revs[0], ids[0], todo[k + 1], choose);
      }
      SplitFirst(db, user, todo, choose, p);
    }
  }

  lemma SplitFirst(db: Db, user: UserId, todo: seq<Summary>, choose: UserId -> Option<LikeId>, p: Pair)
    requires todo != []
    ensures SomeJoins(db, user, todo, choose, p) <==>
              (p == Sorted(todo[0].sender, user) && Joins(db, user, todo[0], choose)) || SomeJoins(db, user, todo[1..], choose, p)
  {
    if k :| 0 <= k < |todo| && p == Sorted(todo[k].sender, user) && Joins(db, user, todo[k], choose) {
      assert k > 0 ==> todo[1..][k - 1] == todo[k];
    }
    if k :| 0 <= k < |todo[1..]| && p == Sorted(todo[1..][k].sender, user) && Joins(db, user, todo[1..][k], choose) {
      assert todo[k + 1] == todo[1..][k];
    }
  }

  /** Two orders of the same likes leave the same pairs ACTIVE. */
  lemma ClaimOrderIrrelevant(db: Db, user: UserId, choose: UserId -> Option<LikeId>,
                             order: seq<LikeId>, revs: seq<Option<LikeId>>, ids: seq<MatchId>,
                             order': seq<LikeId>, revs': seq<Option<LikeId>>, ids': seq<MatchId>)
    requires Inv(db)
    requires Enabled(db, HandleClaimed(user, order, revs, ids)) && Enabled(db, HandleClaimed(user, order', revs', ids'))
    requires FixedChoices(db, user, Summaries(db, order), revs, ids, choose)
    requires FixedChoices(db, user, Summaries(db, order'), revs', ids', choose)
    ensures forall p :: IsActive(Next(db, HandleClaimed(user, order, revs, ids)), p)
                   <==> IsActive(Next(db, HandleClaimed(user, order', revs', ids')), p)
  {
    ActionableAreCurrent(db, user, order);
    ActionableAreCurrent(db, user, order');
    var todo, todo' := Summaries(db, order), Summaries(db, order');
    forall p ensures IsActive(Next(db, HandleClaimed(user, order, revs, ids)), p)
                <==> IsActive(Next(db, HandleClaimed(user, order', revs', ids')), p)
    {
      ActiveAfterClaim(db, user, todo, revs, ids, choose, p);
      ActiveAfterClaim(db, user, todo', revs', ids', choose, p);
      if SomeJoins(db, user, todo, choose, p) {
        JoinsTransfer(db, user, order, order', choose, p);
      }
      if SomeJoins(db, user, todo', choose, p) {
        JoinsTransfer(db, user, order', order, choose, p);
      }
    }
  }

  lemma JoinsTransfer(db: Db, user: UserId, order: seq<LikeId>, order': seq<LikeId>, choose: UserId -> Option<LikeId>, p: Pair)
    requires ListsActionable(db, user, order) && ListsActionable(db, user, order')
    requires SomeJoins(db, user, Summaries(db, order), choose, p)
    ensures SomeJoins(db, user, Summaries(db, order'), choose, p)
  {
    var todo, todo' := Summaries(db, order), Summaries(db, order');
    var k :| 0 <= k < |todo| && p == Sorted(todo[k].sender, user) && Joins(db, user, todo[k], choose);
    assert IsActionable(db, user, order[k]);
    var j :| 0 <= j < |order'| && order'[j] == order[k];
    assert todo'[j] == todo[k];
  }

  // ---- Likes left on the identities of a deleted account ----

  /** Likes that account deletion leaves able to answer a later owner of their target: not
      deleted, passing the filter, and PENDING, VOIDED or a counterpart of one of the user's
      matches before. */
  predicate Survives(db: Db, user: UserId, id: LikeId) {
    && id in db.likes && db.likes[id].sender != user && Owner(db, db.likes[id].target) == Some(user)
    && db.likes[id].deletedAt.None? && PassesFilter(db.likes[id], db.cutoff)
    && (db.likes[id].status.Pending? || db.likes[id].status.Voided? || IsOtherPartys(db, user, id))
  }

  /** After the account is deleted and `w` claims the identity, the like is a reverse like
      for `w` exactly if it survived. */
  lemma LeftoverLikeAnswersExactly(db: Db, user: UserId, w: UserId, v: PublicValue, newIdentity: IdentityId, id: LikeId)
    requires Inv(db) && user in db.users && newIdentity !in db.owners
    requires id in db.likes && db.likes[id].sender != user && Owner(db, db.likes[id].target) == Some(user)
    requires v in db.values && db.values[v] == db.likes[id].target
    ensures var db' := Claim(DeleteAccount(db, user), w, v, newIdentity);
            IsReverse(db', w, db.likes[id].sender, id) <==> Survives(db, user, id)
  {
    var gone := DeleteAccount(db, user);
    assert IsCounterpart(db, user, id) <==> IsOtherPartys(db, user, id);
    assert id in gone.likes && gone.owners[db.likes[id].target].None?;
    assert Claim(gone, w, v, newIdentity).owners[db.likes[id].target] == Some(w);
  }

  lemma ClaimLeavesOthers(db: Db, w: UserId, v: PublicValue, newIdentity: IdentityId, x: UserId, y: UserId)
    ensures var db' := Claim(db, w, v, newIdentity);
            && db'.matches == db.matches && db'.likes == db.likes && (IsBlocked(db', x, y) <==> IsBlocked(db, x, y))
  {
    var db' := Claim(db, w, v, newIdentity);
    assert db'.blocks == db.blocks;
    assert forall k :: k in db.blocks && BlockStands(db.blocks[k], x, y) ==> BlockStands(db'.blocks[k], x, y);
  }

  lemma DeletionLeavesOtherPairs(db: Db, user: UserId, x: UserId, y: UserId)
    requires user in db.users && x != user && y != user
    ensures var gone := DeleteAccount(db, user);
            && (IsActive(gone, Sorted(x, y)) <==> IsActive(db, Sorted(x, y)))
            && (IsBlocked(gone, x, y) <==> IsBlocked(db, x, y))
  {
    LetGoFreesOnlyTheUser(db, DeleteAccount(db, user), user, x, y);
  }

  /** The tables after the deletion and the claim are sound, and no third party's match or
      block has changed. */
  lemma ClaimAfterDeletion(db: Db, user: UserId, w: UserId, v: PublicValue, newIdentity: IdentityId, other: UserId)
    requires Inv(db) && user in db.users && newIdentity !in db.owners && w in db.users && w != user && other != user
    requires NoOwnLike(DeleteAccount(db, user), w, v)
    ensures var db' := Claim(DeleteAccount(db, user), w, v, newIdentity);
            && Inv(db')
            && (IsActive(db', Sorted(w, other)) <==> IsActive(db, Sorted(w, other)))
            && (IsBlocked(db', w, other) <==> IsBlocked(db, w, other))
  {
    DeleteAccountKeepsInv(db, user);
    ClaimKeepsInv(DeleteAccount(db, user), w, v, newIdentity);
    DeletionLeavesOtherPairs(db, user, w, other);
    ClaimLeavesOthers(DeleteAccount(db, user), w, v, newIdentity, w, other);
  }

  /** When the new owner then likes the sender back, the leftover like completes a match
      with the new owner exactly if it survived, the intents fit and nothing is blocked. */
  lemma LeftoverLikeCompletesExactly(db: Db, user: UserId, w: UserId, v: PublicValue, newIdentity: IdentityId,
                                     id: LikeId, s: Summary, newId: MatchId)
    requires Inv(db) && user in db.users && newIdentity !in db.owners && w in db.users && w != user
    requires id in db.likes && db.likes[id].sender != user && Owner(db, db.likes[id].target) == Some(user)
    requires v in db.values && db.values[v] == db.likes[id].target && NoOwnLike(DeleteAccount(db, user), w, v)
    requires !IsActive(db, Sorted(w, db.likes[id].sender))
    requires var db' := Claim(DeleteAccount(db, user), w, v, newIdentity);
             Current(db', s) && s.sender == w && s.owner == Some(db.likes[id].sender)
    ensures var db' := Claim(DeleteAccount(db, user), w, v, newIdentity);
            var sender := db.likes[id].sender;
            ReverseChoice(db', w, sender, Some(id)) && IsActive(Resolve(db', s, Some(id), newId).0, Sorted(w, sender))
            <==> Survives(db, user, id) && Compatible(s.intent, db.likes[id].intent) && !IsBlocked(db, w, sender)
  {
    var db' := Claim(DeleteAccount(db, user), w, v, newIdentity);
    var sender := db.likes[id].sender;
    LeftoverLikeAnswersExactly(db, user, w, v, newIdentity, id);
    ClaimAfterDeletion(db, user, w, v, newIdentity, sender);
    assert id in db'.likes && db'.likes[id].intent == db.likes[id].intent;
    if IsReverse(db', w, sender, id) && Eligible(db', w, sender, s.intent, db'.likes[id].intent) {
      ResolveCommits(db', s, id, newId);
    }
  }
}
