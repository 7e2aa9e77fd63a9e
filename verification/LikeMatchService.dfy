/** The services themselves: the statements that read and update the tables, each tied to
    the step of module LikeMatch that it performs. */
module LikeMatchService {
  import opened Prelude
  import CreditLedger
  import CreditViews
  import opened CreditsService
  import opened LikeMatch
  import opened LikeMatchInvariant
  import opened LikeMatchOutcomes
  import opened LikeMatchRuns

  datatype Eligibility = Eligibility(valid: bool, existingMatch: Option<Match>)

  datatype UnmatchResult = Dissolved | MatchNotFound | TransactionFailed

  datatype DeleteResult = LikeDeleted | LikeNotFound | InvalidLikeState

  datatype BlockResult = BlockCreated(id: BlockId) | SelfBlock | BlockTargetNotFound | AlreadyBlocked

  datatype ClaimResult = Claimed(identity: IdentityId) | IdentityAlreadyClaimed

  class Tables {
    var users: set<UserId>
    var owners: map<IdentityId, Option<UserId>>
    var values: map<PublicValue, IdentityId>
    var likes: map<LikeId, Like>
    var matches: map<Pair, Match>
    var blocks: map<BlockId, Block>
    var ledgers: Ledgers
    var now: int
    var cutoff: int

    constructor (now: int)
      ensures Snapshot() == Db({}, map[], map[], map[], map[], map[], map[], now, now)
    {
      users, owners, values, likes, matches, blocks, ledgers := {}, map[], map[], map[], map[], map[], map[];
      this.now, this.cutoff := now, now;
    }

    ghost function Snapshot(): Db
      reads this
    {
      Db(users, owners, values, likes, matches, blocks, ledgers, now, cutoff)
    }

    // ---- Match resolver ----

    method IsBlockedBetween(x: UserId, y: UserId) returns (blocked: bool)
      ensures blocked <==> HasBlocked(Snapshot(), x, y) || HasBlocked(Snapshot(), y, x)
      ensures blocked <==> IsBlocked(Snapshot(), x, y)
    {
      BlockedEitherWay(Snapshot(), x, y);
      blocked := exists k :: k in blocks && BlockStands(blocks[k], x, y);
    }

    method FindReverseLike(a: UserId, b: UserId) returns (rev: Option<LikeId>)
      ensures ReverseChoice(Snapshot(), a, b, rev)
      ensures Found(Snapshot(), rev, b, a)
    {
      var candidates := set id | id in likes
        && likes[id].sender == b && (likes[id].target in owners && owners[likes[id].target] == Some(a))
        && (likes[id].status.Pending? || likes[id].status.Voided?) && likes[id].deletedAt.None?
        && PassesFilter(likes[id], cutoff);
      if candidates == {} {
        rev := None;
        assert forall id :: IsReverse(Snapshot(), a, b, id) ==> id in candidates;
      } else {
        var id :| id in candidates;
        rev := Some(id);
      }
      ChoiceIsFound(Snapshot(), a, b, rev);
    }

    method ValidateMatchEligibility(s: Summary, reverseIntent: Intent, owner: UserId, p: Pair) returns (e: Eligibility)
      requires p == Sorted(s.sender, owner)
      ensures e.valid <==> Eligible(Snapshot(), s.sender, owner, s.intent, reverseIntent)
      ensures e.valid ==> e.existingMatch == if p in matches then Some(matches[p]) else None
      ensures !e.valid ==> e.existingMatch.None?
      ensures e.valid <==> && IntentsFit(s.intent, reverseIntent) && Unblocked(Snapshot(), s.sender, owner)
                           && !AreMatched(Snapshot(), s.sender, owner)
    {
      UnblockedIsNotBlocked(Snapshot(), s.sender, owner);
      MatchedIsActive(Snapshot(), s.sender, owner);
      if !Compatible(s.intent, reverseIntent) {
        return Eligibility(false, None);
      }
      var blocked := IsBlockedBetween(s.sender, owner);
      if blocked {
        return Eligibility(false, None);
      }
      var existing := if p in matches then Some(matches[p]) else None;
      if existing.Some? && existing.value.status.Active? {
        return Eligibility(false, None);
      }
      return Eligibility(true, existing);
    }

    /** The transaction: all of its writes or none. */
    method ExecuteMatchTransaction(likeOne: LikeId, likeTwo: LikeId, intentOne: Intent, intentTwo: Intent,
                                   p: Pair, existing: Option<Match>, newId: MatchId)
      returns (conflict: bool, row: Option<Match>)
      modifies this
      ensures var id := if existing.Some? then Some(existing.value.id) else None;
              match ExecuteMatch(old(Snapshot()), likeOne, likeTwo, intentOne, intentTwo, p, id, newId)
              case Committed(db, m) => !conflict && row == Some(m) && Snapshot() == db
              case Conflict => conflict && row.None? && Snapshot() == old(Snapshot())
              case Failed => !conflict && row.None? && Snapshot() == old(Snapshot())
      ensures row.Some? ==>
        && likeOne in old(likes) && likeTwo in old(likes)
        && row.value == Match(if existing.Some? then existing.value.id else newId, likeOne, likeTwo, intentOne, intentTwo, Active, None)
        && matches == old(matches)[p := row.value]
        && likes.Keys == old(likes).Keys && likes[likeOne].status == Matched && likes[likeTwo].status == Matched
        && (forall id :: id in likes ==> likes[id] == old(likes)[id].(status := likes[id].status))
        && (forall id :: id in likes && id != likeOne && id != likeTwo ==> likes[id] == old(likes)[id])
      ensures row.None? ==> Snapshot() == old(Snapshot())
    {
      if likeOne !in likes || likeTwo !in likes {
        return false, None;
      }
      if existing.Some? && (p !in matches || matches[p].id != existing.value.id) {
        return false, None;
      }
      var taken := exists q :: q in matches && q != p && (matches[q].likeOne == likeOne || matches[q].likeTwo == likeTwo);
      if taken || (existing.None? && p in matches) {
        return true, None;
      }
      var finalMatch: Match;
      if existing.Some? {
        finalMatch := existing.value.(likeOne := likeOne, likeTwo := likeTwo, intentOne := intentOne, intentTwo := intentTwo,
                                      status := Active, deletedAt := None);
      } else {
        finalMatch := Match(newId, likeOne, likeTwo, intentOne, intentTwo, Active, None);
      }
      matches := matches[p := finalMatch];
      likes := likes[likeOne := likes[likeOne].(status := Matched)];
      likes := likes[likeTwo := likes[likeTwo].(status := Matched)];
      row := Some(finalMatch);
      conflict := false;
    }

    /** `resolveFromLike`: the answer is the match made just now, if one was. */
    method ResolveFromLike(s: Summary, newId: MatchId) returns (matched: Option<MatchId>, rev: Option<LikeId>)
      modifies this
      ensures s.owner.Some? ==> ReverseChoice(old(Snapshot()), s.sender, s.owner.value, rev)
      ensures (Snapshot(), matched) == Resolve(old(Snapshot()), s, rev, newId)
      ensures old(Inv(Snapshot()) && Current(Snapshot(), s)) ==> Inv(Snapshot())
      ensures old(Inv(Snapshot()) && Current(Snapshot(), s)) && s.owner.Some? ==>
        ResolvedTruly(old(Snapshot()), Snapshot(), s, s.owner.value, rev, matched)
      ensures s.owner.Some? ==> ConflictTold(old(Snapshot()), Snapshot(), s, s.owner.value, rev, matched)
      ensures s.owner.None? ==> matched == None && Snapshot() == old(Snapshot())
    {
      ghost var before := Snapshot();
      matched, rev := ResolveRows(s, newId);
      if s.owner.Some? {
        ConflictIsTold(before, s, rev, newId);
      }
      if Inv(before) && Current(before, s) {
        ResolveKeepsInv(before, s, rev, newId);
        ResolveAnswersTruly(before, s, rev, newId);
      }
    }

    /** The reads and writes of the resolver. */
    method ResolveRows(s: Summary, newId: MatchId) returns (matched: Option<MatchId>, rev: Option<LikeId>)
      modifies this
      ensures s.owner.Some? ==> ReverseChoice(old(Snapshot()), s.sender, s.owner.value, rev)
      ensures (Snapshot(), matched) == Resolve(old(Snapshot()), s, rev, newId)
    {
      matched, rev := None, None;
      if s.owner.None? {
        return;
      }
      var targetUser := s.owner.value;
      rev := FindReverseLike(s.sender, targetUser);
      if rev.None? {
        return;
      }
      var reverse := likes[rev.value];
      var p := Sorted(s.sender, targetUser);
      var senderIsOne, targetIsTwo := p.one == s.sender, p.two == targetUser;
      var e := ValidateMatchEligibility(s, reverse.intent, targetUser, p);
      if !e.valid {
        return;
      }
      var conflict, row := ExecuteMatchTransaction(
        if senderIsOne then s.id else rev.value, if targetIsTwo then rev.value else s.id,
        if senderIsOne then s.intent else reverse.intent, if targetIsTwo then reverse.intent else s.intent,
        p, e.existingMatch, newId);
      if row.Some? {
        matched := Some(row.value.id);
      } else if conflict {
        matched := if p in matches then Some(matches[p].id) else None;
      }
    }

    // ---- Likes ----

    method DeleteOwnLike(id: LikeId, user: UserId) returns (result: DeleteResult)
      modifies this
      ensures Snapshot() == DeleteLike(old(Snapshot()), user, id)
      ensures result.LikeDeleted? <==> CanDelete(old(Snapshot()), user, id)
      ensures result.LikeNotFound? <==> old(!(id in likes && likes[id].sender == user && likes[id].deletedAt.None?))
      ensures result.LikeDeleted? <==> old(id in likes && likes[id].sender == user && likes[id].deletedAt == None && likes[id].status == Pending)
      ensures result.LikeDeleted? ==>
        Snapshot() == old(Snapshot()).(likes := old(likes)[id := old(likes[id]).(deletedAt := Some(now), status := Deleted)])
      ensures !result.LikeDeleted? ==> Snapshot() == old(Snapshot())
      ensures old(Inv(Snapshot())) ==> Inv(Snapshot())
    {
      if old(Inv(Snapshot())) {
        DeleteLikeKeepsInv(Snapshot(), user, id);
      }
      if !(id in likes && likes[id].sender == user && likes[id].deletedAt.None?) {
        return LikeNotFound;
      }
      if likes[id].status != Pending {
        return InvalidLikeState;
      }
      likes := likes[id := likes[id].(deletedAt := Some(now), status := Deleted)];
      return LikeDeleted;
    }

    // ---- Matches ----

    /** The transaction fails as a whole if one of the two likes is gone, which the foreign
        keys, and so the invariant, rule out. */
    method UnmatchPair(p: Pair, user: UserId) returns (result: UnmatchResult)
      modifies this
      ensures Snapshot() == Unmatch(old(Snapshot()), user, p)
      ensures result.Dissolved? <==> CanUnmatch(old(Snapshot()), user, p)
      ensures result.MatchNotFound? <==>
        old(!(p in matches && (p.one == user || p.two == user) && matches[p].status == Active && matches[p].deletedAt == None))
      ensures result.Dissolved? ==>
        && old(p in matches && matches[p].likeOne in likes && matches[p].likeTwo in likes)
        && var m := old(matches[p]);
        && var own, other := if user == p.one then m.likeOne else m.likeTwo, if user == p.one then m.likeTwo else m.likeOne;
        Snapshot() == old(Snapshot()).(
          matches := old(matches)[p := m.(status := Unmatched, deletedAt := Some(now))],
          likes := old(likes)[own := old(likes)[own].(status := Withdrawn)][other := old(likes)[other].(status := Voided)])
      ensures !result.Dissolved? ==> Snapshot() == old(Snapshot())
      ensures old(Inv(Snapshot())) ==> Inv(Snapshot()) && !result.TransactionFailed?
    {
      if Inv(Snapshot()) {
        UnmatchKeepsInv(Snapshot(), user, p);
        assert p in matches ==> MatchOk(Snapshot(), p, matches[p]);
      }
      if !(p in matches && (p.one == user || p.two == user) && matches[p].status.Active? && matches[p].deletedAt.None?) {
        return MatchNotFound;
      }
      var initiatorLike := if user == p.one then matches[p].likeOne else matches[p].likeTwo;
      var otherLike := if user == p.one then matches[p].likeTwo else matches[p].likeOne;
      if initiatorLike !in likes || otherLike !in likes {
        return TransactionFailed;
      }
      matches := matches[p := matches[p].(status := Unmatched, deletedAt := Some(now))];
      likes := likes[initiatorLike := likes[initiatorLike].(status := Withdrawn)];
      likes := likes[otherLike := likes[otherLike].(status := Voided)];
      return Dissolved;
    }

    // ---- Blocks ----

    method CreateBlock(blocker: UserId, blocked: UserId, newId: BlockId) returns (result: BlockResult, row: Option<BlockId>)
      requires BlocksOk(Snapshot()) && newId !in blocks
      modifies this
      ensures Snapshot() == BlockUser(old(Snapshot()), blocker, blocked, row, newId)
      ensures BlocksOk(Snapshot())
      ensures result.BlockCreated? <==> CanBlock(old(Snapshot()), blocker, blocked)
      ensures result.BlockCreated? ==> BlockChoice(old(Snapshot()), blocker, blocked, row)
      ensures result.SelfBlock? <==> blocker == blocked
      ensures result.BlockTargetNotFound? <==> blocker != blocked && blocked !in old(users)
      ensures result.BlockCreated? ==> IsBlocked(Snapshot(), blocker, blocked) && IsBlocked(Snapshot(), blocked, blocker)
      ensures result.AlreadyBlocked? <==>
        && blocker != blocked && blocked in old(users)
        && old(exists k :: k in blocks && blocks[k].blocker == blocker && blocks[k].blocked == Some(blocked) && blocks[k].deletedAt == None)
      ensures result.BlockCreated? ==>
        && Snapshot() == old(Snapshot()).(blocks := old(blocks)[result.id := Block(blocker, Some(blocked), None)])
        && (result.id in old(blocks) ==> old(blocks)[result.id].blocker == blocker && old(blocks)[result.id].blocked == Some(blocked))
      ensures !result.BlockCreated? ==> Snapshot() == old(Snapshot())
    {
      row := None;
      if blocker == blocked {
        return SelfBlock, None;
      }
      if blocked !in users {
        return BlockTargetNotFound, None;
      }
      var existing := set k | k in blocks && blocks[k].blocker == blocker && blocks[k].blocked == Some(blocked);
      if existing == {} {
        assert forall k :: k in blocks ==> k !in existing;
        BlockUserStands(Snapshot(), blocker, blocked, None, newId);
        blocks := blocks[newId := Block(blocker, Some(blocked), None)];
        return BlockCreated(newId), None;
      }
      var k :| k in existing;
      row := Some(k);
      if blocks[k].deletedAt.None? {
        return AlreadyBlocked, row;
      }
      BlockUserStands(Snapshot(), blocker, blocked, row, newId);
      blocks := blocks[k := blocks[k].(deletedAt := None)];
      return BlockCreated(k), row;
    }

    method DeleteBlock(k: BlockId, user: UserId) returns (found: bool)
      modifies this
      ensures found <==> CanUnblock(old(Snapshot()), user, k)
      ensures Snapshot() == Unblock(old(Snapshot()), user, k)
      ensures found <==> old(k in blocks && blocks[k].blocker == user && blocks[k].deletedAt == None)
      ensures found ==> Snapshot() == old(Snapshot()).(blocks := old(blocks)[k := old(blocks[k]).(deletedAt := Some(now))])
      ensures !found ==> Snapshot() == old(Snapshot())
      ensures old(BlocksOk(Snapshot())) ==> BlocksOk(Snapshot())
      ensures old(BlocksOk(Snapshot())) ==>
        forall x: UserId, y: UserId :: HasBlocked(Snapshot(), x, y)
                  <==> old(HasBlocked(Snapshot(), x, y) && !(found && x == user && blocks[k].blocked == Some(y)))
    {
      ghost var db := Snapshot();
      if BlocksOk(db) {
        forall x: UserId, y: UserId ensures HasBlocked(Unblock(db, user, k), x, y) <==> HasBlocked(db, x, y) && !EndsBlock(db, LiftBlock(user, k), x, y) {
          LiftingUnblocksExactly(db, user, k, x, y);
        }
      }
      if !(k in blocks && blocks[k].blocker == user && blocks[k].deletedAt.None?) {
        return false;
      }
      blocks := blocks[k := blocks[k].(deletedAt := Some(now))];
      return true;
    }

    // ---- Creating a like ----

    /** Find the identity a like is aimed at, creating an unowned one for a new value. */
    method LocateTarget(target: Target, newIdentity: IdentityId) returns (located: Option<IdentityId>)
      modifies this
      ensures (Snapshot(), located) == LocateIdentity(old(Snapshot()), target, newIdentity)
      ensures target.ById? ==> located == Some(target.id) && Snapshot() == old(Snapshot())
      ensures target.Nothing? ==> located == None && Snapshot() == old(Snapshot())
      ensures target.ByValue? && target.value in old(values) ==>
        located == Some(old(values)[target.value]) && Snapshot() == old(Snapshot())
      ensures target.ByValue? && target.value !in old(values) ==>
        && located == Some(newIdentity)
        && Snapshot() == old(Snapshot()).(owners := old(owners)[newIdentity := None], values := old(values)[target.value := newIdentity])
      ensures old(Inv(Snapshot())) && newIdentity !in old(owners) ==>
        && Inv(Snapshot())
        && (forall another :: LocateIdentity(Snapshot(), target, another) == (Snapshot(), located))
        && (target.ByValue? ==> located.Some? && located.value in owners)
        && (target.ByValue? && located.value !in old(owners) ==>
              owners[located.value].None? && forall id :: id in likes ==> likes[id].target != located.value)
        && (forall i :: i in old(owners) ==> i in owners && owners[i] == old(owners)[i])
    {
      ghost var db := Snapshot();
      if Inv(db) && newIdentity !in owners {
        LocateKeepsInv(db, target, newIdentity);
        forall another {
          LocateTwice(db, target, newIdentity, another);
        }
      }
      match target {
        case Nothing => return None;
        case ById(i) => return Some(i);
        case ByValue(v) =>
          if v in values {
            return Some(values[v]);
          }
          owners := owners[newIdentity := None];
          values := values[v := newIdentity];
          return Some(newIdentity);
      }
    }

    method FindReusable(user: UserId, i: IdentityId) returns (reuse: Option<LikeId>)
      ensures ReuseChoice(Snapshot(), user, i, reuse)
      ensures if reuse.Some? then MayBeReused(Snapshot(), reuse.value, user, i)
              else forall id :: !MayBeReused(Snapshot(), id, user, i)
    {
      ReuseIsFound(Snapshot(), user, i, None);
      var reusable := set id | id in likes && SentTo(likes[id], user, i) && IsReusable(likes[id], now);
      if reusable == {} {
        assert forall id :: id in likes ==> id !in reusable;
        return None;
      }
      var id :| id in reusable;
      ReuseIsFound(Snapshot(), user, i, Some(id));
      return Some(id);
    }

    /** Steps 3 to 4.6 of `create`: the refusals, in order, and the row to re-use. */
    method CheckTarget(user: UserId, i: IdentityId) returns (refusal: Option<CreateResult>, reuse: Option<LikeId>)
      ensures refusal == Refusal(Snapshot(), user, i)
      ensures refusal.None? ==> ReuseChoice(Snapshot(), user, i, reuse)
    {
      reuse := None;
      if i !in owners {
        return Some(IdentityNotFound), None;
      }
      if owners[i] == Some(user) {
        return Some(SelfLike), None;
      }
      if exists id :: id in likes && SentTo(likes[id], user, i) && BlocksReliking(likes[id], cutoff) {
        return Some(AlreadyLiked), None;
      }
      reuse := FindReusable(user, i);
      if owners[i].Some? {
        var p := Sorted(user, owners[i].value);
        if p in matches && matches[p].status.Active? {
          return Some(AlreadyMatched), reuse;
        }
      }
      return None, reuse;
    }

    /** The creation transaction: the like row and its debit, or neither. */
    method PersistAndCharge(user: UserId, i: IdentityId, intent: Intent, expiresAt: Option<int>,
                            reuse: Option<LikeId>, newLike: LikeId) returns (result: CreateResult)
      modifies this
      ensures var q := LikeRequest(user, ById(i), intent, expiresAt, 0, newLike, 0, reuse, None);
              (Snapshot(), result) == Charge(old(Snapshot()), q, i)
    {
      if reuse.None? && exists id :: id in likes && SentTo(likes[id], user, i) {
        return DuplicateRow;
      }
      var before := likes;
      var like := if reuse.Some? then reuse.value else newLike;
      likes := likes[like := Like(user, i, intent, Pending, expiresAt, None)];
      var paid := CreditLedger.Consume(RowsOf(ledgers, user), CREDITS_PER_LIKE, Some(like), now);
      if paid.None? {
        likes := before;
        return CreateResult.InsufficientCredits;
      }
      ledgers := ledgers[user := paid.value];
      result := Created(like, None);
    }

    /** `create`: the checks in order, then the row and its debit, then the resolver. The
        outcome is the step CreateLike for the rows the two lookups returned. */
    method CreateOwnLike(user: UserId, target: Target, intent: Intent, expiresAt: Option<int>,
                         newIdentity: IdentityId, newLike: LikeId, newMatch: MatchId)
      returns (result: CreateResult, reuse: Option<LikeId>, rev: Option<LikeId>)
      requires user in users && newIdentity !in owners && newLike !in likes
      requires expiresAt.Some? ==> expiresAt.value > now
      modifies this
      ensures var q := LikeRequest(user, target, intent, expiresAt, newIdentity, newLike, newMatch, reuse, rev);
              && (Snapshot(), result) == CreateLike(old(Snapshot()), q)
              && (result.Created? ==> RequestOk(old(Snapshot()), q) && RequestResolves(old(Snapshot()), q))
      ensures old(Inv(Snapshot())) ==> Inv(Snapshot()) && !result.DuplicateRow?
      ensures var q := LikeRequest(user, target, intent, expiresAt, newIdentity, newLike, newMatch, reuse, rev);
              old(Inv(Snapshot())) ==> CreatedTruly(old(Snapshot()), Snapshot(), q, result)
    {
      ghost var db0 := Snapshot();
      reuse, rev := None, None;
      ghost var q := LikeRequest(user, target, intent, expiresAt, newIdentity, newLike, newMatch, None, None);
      if CreditLedger.Balance(RowsOf(ledgers, user), now) < CREDITS_PER_LIKE {
        UnaffordableUnfolds(db0, q);
        CreateTells(db0, q);
        return CreateResult.InsufficientCredits, None, None;
      }
      var located := LocateTarget(target, newIdentity);
      if located.None? {
        UnlocatedUnfolds(db0, q, Snapshot());
        CreateTells(db0, q);
        return MissingTargetIdentity, None, None;
      }
      var refusal;
      refusal, reuse := CheckTarget(user, located.value);
      q := q.(reuse := reuse);
      if refusal.Some? {
        RefusedUnfolds(db0, q, Snapshot(), located.value);
        CreateTells(db0, q);
        return refusal.value, reuse, None;
      }
      RequestIsOk(db0, q, Snapshot(), located.value);
      result, rev := StoreAndResolve(user, located.value, intent, expiresAt, reuse, newLike, newMatch, db0, q);
      q := q.(rev := rev);
      CreateTells(db0, q);
    }

    /** The transaction of `create`, once nothing refuses it. */
    method StoreOwnLike(user: UserId, i: IdentityId, intent: Intent, expiresAt: Option<int>, reuse: Option<LikeId>,
                        newLike: LikeId, ghost db0: Db, ghost q: LikeRequest)
      returns (result: CreateResult)
      requires q.user == user && q.intent == intent && q.expiresAt == expiresAt && q.reuse == reuse && q.newLike == newLike
      requires Passed(db0, q, Snapshot(), i)
      modifies this
      ensures StoreLike(db0, q) == (Snapshot(), result)
      ensures result.Created? ==> result.matched.None? && result.like in likes
      ensures result.Created? ==>
        SummaryOf(Snapshot(), result.like) == Summary(result.like, user, i, intent, Owner(Snapshot(), i))
    {
      ghost var db1 := Snapshot();
      result := PersistAndCharge(user, i, intent, expiresAt, reuse, newLike);
      ChargeIgnoresTarget(db1, q, i);
      StoredSummary(db0, q, db1, i);
    }

    /** The rest of `create`, once nothing refuses it: the transaction, then the resolver. */
    method StoreAndResolve(user: UserId, i: IdentityId, intent: Intent, expiresAt: Option<int>, reuse: Option<LikeId>,
                           newLike: LikeId, newMatch: MatchId, ghost db0: Db, ghost q: LikeRequest)
      returns (result: CreateResult, rev: Option<LikeId>)
      requires q.user == user && q.intent == intent && q.expiresAt == expiresAt && q.reuse == reuse && q.newLike == newLike
      requires q.newMatch == newMatch
      requires RequestOk(db0, q) && Passed(db0, q, Snapshot(), i)
      modifies this
      ensures (Snapshot(), result) == CreateLike(db0, q.(rev := rev)) && RequestResolves(db0, q.(rev := rev))
      ensures Inv(db0) ==> Inv(Snapshot()) && !result.DuplicateRow?
    {
      rev := None;
      result := StoreOwnLike(user, i, intent, expiresAt, reuse, newLike, db0, q);
      ghost var stored := Snapshot();
      if result.Created? {
        var owner := if i in owners then owners[i] else None;
        var like, matched := result.like, None;
        matched, rev := ResolveFromLike(Summary(like, user, i, intent, owner), newMatch);
        result := Created(like, matched);
        CreateLikeUnfolds(db0, q, rev, stored, like);
      } else {
        UnstoredUnfolds(db0, q, rev);
      }
      if Inv(db0) {
        CreateLikeKeepsInv(db0, q.(rev := rev));
      }
    }

    // ---- Identities ----

    method ClaimOrCreateIdentity(user: UserId, v: PublicValue, newIdentity: IdentityId) returns (result: ClaimResult)
      requires newIdentity !in owners
      modifies this
      ensures Snapshot() == Claim(old(Snapshot()), user, v, newIdentity)
      ensures result.Claimed? <==> CanClaim(old(Snapshot()), user, v)
      ensures result.Claimed? ==> Owner(Snapshot(), result.identity) == Some(user) && v in values && values[v] == result.identity
      ensures result.IdentityAlreadyClaimed? <==>
        old(v in values && values[v] in owners && owners[values[v]] != None && owners[values[v]] != Some(user))
      ensures result.Claimed? ==>
        && result.identity == (if v in old(values) then old(values)[v] else newIdentity)
        && Snapshot() == old(Snapshot()).(owners := old(owners)[result.identity := Some(user)], values := old(values)[v := result.identity])
      ensures !result.Claimed? ==> Snapshot() == old(Snapshot())
    {
      if v in values {
        var i := values[v];
        if i in owners && owners[i].Some? && owners[i] != Some(user) {
          return IdentityAlreadyClaimed;
        }
        owners := owners[i := Some(user)];
        assert values == values[v := i];
        return Claimed(i);
      }
      owners := owners[newIdentity := Some(user)];
      values := values[v := newIdentity];
      return Claimed(newIdentity);
    }

    /** The claim handler: read the actionable likes once, then resolve each of them. */
    method HandleIdentityClaimed(user: UserId, supply: nat -> MatchId)
      returns (order: seq<LikeId>, revs: seq<Option<LikeId>>, ids: seq<MatchId>)
      modifies this
      ensures |order| == |revs| == |ids|
      ensures ListsActionable(old(Snapshot()), user, order)
      ensures LoopChoices(old(Snapshot()), Summaries(old(Snapshot()), order), revs, ids)
      ensures Snapshot() == ResolveAll(old(Snapshot()), Summaries(old(Snapshot()), order), revs, ids)
      ensures old(Inv(Snapshot())) ==> Inv(Snapshot())
      ensures forall id :: id in order <==> old(Waits(Snapshot(), id, user))
      ensures old(Inv(Snapshot())) ==>
        forall id :: old(MustMatch(Snapshot(), user, id)) ==> AreMatched(Snapshot(), old(likes)[id].sender, user)
    {
      ghost var db0 := Snapshot();
      var todo;
      order, todo := ReadActionable(user);
      revs, ids := [], [];
      for k := 0 to |todo|
        invariant |revs| == |ids| == k
        invariant ResolvedSoFar(db0, Snapshot(), todo, revs, ids)
      {
        ghost var before := Snapshot();
        var matched, rev := ResolveFromLike(todo[k], supply(k));
        ResolveNext(db0, before, todo, revs, ids, rev, supply(k));
        revs, ids := revs + [rev], ids + [supply(k)];
      }
      assert todo[..|todo|] == todo;
      if Inv(db0) {
        ActionableAreCurrent(db0, user, order);
        ResolveAllKeepsInv(db0, user, todo, revs, ids);
        forall id | MustMatch(db0, user, id) ensures AreMatched(Snapshot(), db0.likes[id].sender, user) {
          WaitingLikesAreMatched(db0, user, order, revs, ids, id);
        }
      }
    }

    /** The query of the handler. */
    method ReadActionable(user: UserId) returns (order: seq<LikeId>, todo: seq<Summary>)
      ensures ListsActionable(Snapshot(), user, order)
      ensures todo == Summaries(Snapshot(), order)
      ensures forall id :: id in order <==> Waits(Snapshot(), id, user)
    {
      ghost var db := Snapshot();
      var left := set id | id in likes && likes[id].target in owners && owners[likes[id].target] == Some(user)
                           && BlocksReliking(likes[id], cutoff);
      order, todo := [], [];
      while left != {}
        invariant forall id :: id in left ==> id !in order
        invariant forall id :: IsActionable(db, user, id) <==> id in left || id in order
        invariant forall j, k :: 0 <= j < k < |order| ==> order[j] != order[k]
        invariant |todo| == |order| && forall k :: 0 <= k < |order| ==> order[k] in likes && todo[k] == SummaryOf(db, order[k])
        decreases left
      {
        var id :| id in left;
        left := left - {id};
        var l := likes[id];
        assert IsActionable(db, user, id);
        order := order + [id];
        todo := todo + [Summary(id, l.sender, l.target, l.intent, owners[l.target])];
      }
      assert forall k :: 0 <= k < |order| ==> order[k] in order;
      assert todo == Summaries(db, order);
      forall id ensures id in order <==> Waits(db, id, user) {
        WaitsIsActionable(db, id, user);
      }
    }

    // ---- Account deletion ----

    /** Statements 1 of the deletion: void the counterpart likes, delete the matches. */
    method DissolveAllMatches(user: UserId)
      modifies this`likes, this`matches
      ensures likes == map id | id in old(likes) ::
                if IsCounterpart(old(Snapshot()), user, id) then old(likes)[id].(status := Voided) else old(likes)[id]
      ensures matches == map p | p in old(matches) && !Involves(p, user) :: old(matches)[p]
      ensures forall id :: id in old(likes) ==>
        && id in likes
        && likes[id] == if IsOtherPartys(old(Snapshot()), user, id) then old(likes)[id].(status := Voided) else old(likes)[id]
      ensures forall p :: p in matches <==> p in old(matches) && p.one != user && p.two != user
    {
      ghost var db := Snapshot();
      forall id ensures IsCounterpart(db, user, id) <==> IsOtherPartys(db, user, id) {
        OtherPartysIsCounterpart(db, user, id);
      }
      var mine := set p | p in matches && Involves(p, user);
      var counterparts := set p | p in mine :: if p.one == user then matches[p].likeTwo else matches[p].likeOne;
      assert forall id :: id in counterparts <==> IsCounterpart(Snapshot(), user, id);
      likes := map id | id in likes :: if id in counterparts then likes[id].(status := Voided) else likes[id];
      matches := map p | p in matches && p !in mine :: matches[p];
    }

    /** Statements 2 and 3 and the cascade on sent likes. */
    method RetireLikes(user: UserId, identities: set<IdentityId>)
      modifies this`likes
      ensures likes == map id | id in old(likes) && old(likes)[id].sender != user ::
                if old(likes)[id].target in identities && old(likes)[id].status.Pending?
                then old(likes)[id].(status := Voided) else old(likes)[id]
    {
      likes := map id | id in likes ::
        if likes[id].sender == user then likes[id].(status := Deleted, deletedAt := Some(now)) else likes[id];
      likes := map id | id in likes ::
        if likes[id].target in identities && likes[id].status.Pending? then likes[id].(status := Voided) else likes[id];
      likes := map id | id in likes && likes[id].sender != user :: likes[id];
    }

    /** Statements 5 and 6 and the cascade on placed blocks. */
    method LetGo(user: UserId, identities: set<IdentityId>)
      modifies this`blocks, this`owners
      ensures blocks == map k | k in old(blocks) && old(blocks)[k].blocker != user ::
                if old(blocks)[k].blocked == Some(user) then old(blocks)[k].(blocked := None) else old(blocks)[k]
      ensures owners == map i | i in old(owners) :: if i in identities then None else old(owners)[i]
      ensures forall x, y :: IsBlocked(Snapshot(), x, y) <==> x != user && y != user && old(IsBlocked(Snapshot(), x, y))
      ensures forall i :: i in identities ==> Owner(Snapshot(), i).None?
    {
      ghost var db := Snapshot();
      blocks := map k | k in blocks :: if blocks[k].blocked == Some(user) then blocks[k].(blocked := None) else blocks[k];
      owners := map i | i in owners :: if i in identities then None else owners[i];
      blocks := map k | k in blocks && blocks[k].blocker != user :: blocks[k];
      assert BlocksLetGo(db.blocks, blocks, user);
      forall x, y ensures IsBlocked(Snapshot(), x, y) <==> x != user && y != user && IsBlocked(db, x, y) {
        LetGoFreesOnlyTheUser(db, Snapshot(), user, x, y);
      }
    }

    /** The deletion transaction and the cascades of its last statement. */
    method DeleteUserAccount(user: UserId) returns (found: bool)
      modifies this
      ensures found <==> user in old(users)
      ensures Snapshot() == DeleteAccount(old(Snapshot()), user)
      ensures found ==> AccountRemoved(old(Snapshot()), Snapshot(), user)
      ensures !found ==> Snapshot() == old(Snapshot())
    {
      if user !in users {
        return false;
      }
      ghost var db := Snapshot();
      var userIdentities := set i | i in owners && owners[i] == Some(user);
      DissolveAllMatches(user);
      LikesAfterDeletion(db, user, likes, userIdentities);
      RetireLikes(user, userIdentities);
      LetGo(user, userIdentities);
      users := users - {user};
      ledgers := ledgers - {user};
      OwnersAfterDeletion(db, user, userIdentities);
      DeletionRemovesAccount(db, user);
      return true;
    }
  }

  lemma OwnersAfterDeletion(db: Db, user: UserId, identities: set<IdentityId>)
    requires user in db.users && forall i :: i in identities <==> i in db.owners && db.owners[i] == Some(user)
    ensures DeleteAccount(db, user).owners == map i | i in db.owners :: if i in identities then None else db.owners[i]
  {
  }

  /** The like table after voiding counterparts and retiring likes is the one of the step. */
  lemma LikesAfterDeletion(db: Db, user: UserId, voided: map<LikeId, Like>, identities: set<IdentityId>)
    requires user in db.users && forall i :: i in identities <==> Owner(db, i) == Some(user)
    requires voided == map id | id in db.likes :: if IsCounterpart(db, user, id) then db.likes[id].(status := Voided) else db.likes[id]
    ensures DeleteAccount(db, user).likes
         == map id | id in voided && voided[id].sender != user ::
              if voided[id].target in identities && voided[id].status.Pending? then voided[id].(status := Voided) else voided[id]
  {
  }

  // ---- How `create` composes ----

  /** The request, once its target is located and not refused. */
  ghost predicate Passed(db: Db, q: LikeRequest, db1: Db, i: IdentityId) {
    && CreditLedger.Balance(RowsOf(db.ledgers, q.user), db.now) >= CREDITS_PER_LIKE
    && LocateIdentity(db, q.target, q.newIdentity) == (db1, Some(i))
    && Refusal(db1, q.user, i).None?
  }

  lemma CreateTells(db: Db, q: LikeRequest)
    requires q.newIdentity !in db.owners
    requires Inv(db) ==> !CreateLike(db, q).1.DuplicateRow?
    requires CreateLike(db, q).1.Created? ==> RequestOk(db, q) && RequestResolves(db, q)
    ensures Inv(db) ==> CreatedTruly(db, CreateLike(db, q).0, q, CreateLike(db, q).1)
  {
    if Inv(db) {
      CreateAnswersTruly(db, q);
    }
  }

  lemma UnaffordableUnfolds(db: Db, q: LikeRequest)
    requires CreditLedger.Balance(RowsOf(db.ledgers, q.user), db.now) < CREDITS_PER_LIKE
    ensures CreateLike(db, q) == (db, CreateResult.InsufficientCredits)
  {
  }

  lemma UnlocatedUnfolds(db: Db, q: LikeRequest, db1: Db)
    requires CreditLedger.Balance(RowsOf(db.ledgers, q.user), db.now) >= CREDITS_PER_LIKE
    requires q.newIdentity !in db.owners && LocateIdentity(db, q.target, q.newIdentity) == (db1, None)
    ensures CreateLike(db, q) == (db1, MissingTargetIdentity)
    ensures Inv(db) ==> Inv(db1)
  {
    if Inv(db) {
      LocateKeepsInv(db, q.target, q.newIdentity);
    }
  }

  lemma RequestIsOk(db: Db, q: LikeRequest, db1: Db, i: IdentityId)
    requires q.user in db.users && q.newIdentity !in db.owners && q.newLike !in db.likes
    requires q.expiresAt.Some? ==> q.expiresAt.value > db.now
    requires LocateIdentity(db, q.target, q.newIdentity) == (db1, Some(i)) && ReuseChoice(db1, q.user, i, q.reuse)
    ensures RequestOk(db, q) && forall rev :: RequestOk(db, q.(rev := rev))
  {
  }

  lemma RefusedUnfolds(db: Db, q: LikeRequest, db1: Db, i: IdentityId)
    requires CreditLedger.Balance(RowsOf(db.ledgers, q.user), db.now) >= CREDITS_PER_LIKE
    requires q.newIdentity !in db.owners && LocateIdentity(db, q.target, q.newIdentity) == (db1, Some(i))
    requires Refusal(db1, q.user, i).Some?
    ensures var refusal := Refusal(db1, q.user, i).value;
            CreateLike(db, q) == (db1, refusal) && !refusal.Created? && !refusal.DuplicateRow?
    ensures Inv(db) ==> Inv(db1)
  {
    if Inv(db) {
      LocateKeepsInv(db, q.target, q.newIdentity);
    }
  }

  lemma ChargeIgnoresTarget(db: Db, q: LikeRequest, i: IdentityId)
    ensures Charge(db, q, i) == Charge(db, LikeRequest(q.user, ById(i), q.intent, q.expiresAt, 0, q.newLike, 0, q.reuse, None), i)
  {
  }

  /** Past the refusals, what is stored is the transaction's outcome, and the new row is
      what the resolver is told. */
  lemma StoredSummary(db: Db, q: LikeRequest, db1: Db, i: IdentityId)
    requires Passed(db, q, db1, i)
    ensures StoreLike(db, q) == Charge(db1, q, i)
    ensures var (stored, result) := Charge(db1, q, i);
            && (result.Created? ==> result.matched.None? && result.like in stored.likes)
            && (result.Created? ==> SummaryOf(stored, result.like) == Summary(result.like, q.user, i, q.intent, Owner(stored, i)))
  {
  }

  /** What is stored does not depend on the reverse like found later. */
  lemma StoreIgnoresReverse(db: Db, q: LikeRequest, rev: Option<LikeId>)
    ensures StoreLike(db, q.(rev := rev)) == StoreLike(db, q)
  {
  }

  lemma UnstoredUnfolds(db: Db, q: LikeRequest, rev: Option<LikeId>)
    requires !StoreLike(db, q).1.Created?
    ensures CreateLike(db, q.(rev := rev)) == StoreLike(db, q) && RequestResolves(db, q.(rev := rev))
  {
    StoreIgnoresReverse(db, q, rev);
  }

  lemma CreateLikeUnfolds(db: Db, q: LikeRequest, rev: Option<LikeId>, stored: Db, like: LikeId)
    requires StoreLike(db, q) == (stored, Created(like, None)) && like in stored.likes
    requires var s := SummaryOf(stored, like); s.owner.Some? ==> ReverseChoice(stored, s.sender, s.owner.value, rev)
    ensures var (resolved, matched) := Resolve(stored, SummaryOf(stored, like), rev, q.newMatch);
            CreateLike(db, q.(rev := rev)) == (resolved, Created(like, matched))
    ensures RequestResolves(db, q.(rev := rev))
  {
    StoreIgnoresReverse(db, q, rev);
  }

  /** The claim loop after its first |revs| resolutions. */
  ghost predicate ResolvedSoFar(db0: Db, db: Db, todo: seq<Summary>, revs: seq<Option<LikeId>>, ids: seq<MatchId>) {
    && |revs| == |ids| <= |todo|
    && LoopChoices(db0, todo[..|revs|], revs, ids)
    && db == ResolveAll(db0, todo[..|revs|], revs, ids)
  }

  lemma ResolveNext(db0: Db, db: Db, todo: seq<Summary>, revs: seq<Option<LikeId>>, ids: seq<MatchId>,
                    rev: Option<LikeId>, newId: MatchId)
    requires ResolvedSoFar(db0, db, todo, revs, ids) && |revs| < |todo|
    requires var s := todo[|revs|]; s.owner.Some? ==> ReverseChoice(db, s.sender, s.owner.value, rev)
    ensures ResolvedSoFar(db0, Resolve(db, todo[|revs|], rev, newId).0, todo, revs + [rev], ids + [newId])
  {
    var k := |revs|;
    ResolveAllSnoc(db0, todo[..k], revs, ids, todo[k], rev, newId);
    assert todo[..k + 1] == todo[..k] + [todo[k]];
  }

  /** Resolving one more like at the end of the loop. */
  lemma {:induction false} ResolveAllSnoc(db: Db, todo: seq<Summary>, revs: seq<Option<LikeId>>, ids: seq<MatchId>,
                                          s: Summary, rev: Option<LikeId>, newId: MatchId)
    requires |todo| == |revs| == |ids| && LoopChoices(db, todo, revs, ids)
    requires s.owner.Some? ==> ReverseChoice(ResolveAll(db, todo, revs, ids), s.sender, s.owner.value, rev)
    ensures LoopChoices(db, todo + [s], revs + [rev], ids + [newId])
    ensures ResolveAll(db, todo + [s], revs + [rev], ids + [newId]) == Resolve(ResolveAll(db, todo, revs, ids), s, rev, newId).0
    decreases |todo|
  {
    if todo == [] {
      assert todo + [s] == [s] && revs + [rev] == [rev] && ids + [newId] == [newId];
      assert [s][1..] == [] && [rev][1..] == [] && [newId][1..] == [];
    } else {
      var db1 := Resolve(db, todo[0], revs[0], ids[0]).0;
      ResolveAllSnoc(db1, todo[1..], revs[1..], ids[1..], s, rev, newId);
      assert (todo + [s])[1..] == todo[1..] + [s] && (revs + [rev])[1..] == revs[1..] + [rev] && (ids + [newId])[1..] == ids[1..] + [newId];
    }
  }
}
