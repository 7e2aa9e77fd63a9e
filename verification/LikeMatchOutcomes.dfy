/** What the like–match calls answer and store, said of rows alone: senders, owners, statuses,
    dates, intents and blocks. Nothing here is defined through the functions it speaks about. */
module LikeMatchOutcomes {
  import opened Prelude
  import CreditLedger
  import CreditViews
  import opened CreditsService
  import ExpiryFanOut
  import opened LikeMatch
  import opened LikeMatchInvariant
  import opened LikeMatchRuns

  // ---- Rows ----

  /** An undeleted PENDING or VOIDED like of `from` on an identity of `to` that has not
      expired for the filter. */
  ghost predicate Answers(db: Db, id: LikeId, from: UserId, to: UserId) {
    && id in db.likes && db.likes[id].sender == from
    && db.likes[id].target in db.owners && db.owners[db.likes[id].target] == Some(to)
    && (db.likes[id].status == Pending || db.likes[id].status == Voided) && db.likes[id].deletedAt == None
    && (db.likes[id].expiresAt.Some? ==> db.cutoff < db.likes[id].expiresAt.value)
  }

  /** An undeleted PENDING like on an identity of `to` that has not expired for the filter. */
  ghost predicate Waits(db: Db, id: LikeId, to: UserId) {
    && id in db.likes && db.likes[id].target in db.owners && db.owners[db.likes[id].target] == Some(to)
    && db.likes[id].status == Pending && db.likes[id].deletedAt == None
    && (db.likes[id].expiresAt.Some? ==> db.cutoff < db.likes[id].expiresAt.value)
  }

  /** Neither user has an unlifted block on the other. */
  ghost predicate Unblocked(db: Db, x: UserId, y: UserId) {
    forall k :: k in db.blocks && db.blocks[k].deletedAt == None ==>
      && !(db.blocks[k].blocker == x && db.blocks[k].blocked == Some(y))
      && !(db.blocks[k].blocker == y && db.blocks[k].blocked == Some(x))
  }

  predicate IntentsFit(a: Intent, b: Intent) {
    a == b || a == Open || b == Open
  }

  /** The lower user id comes first. */
  function RowKey(x: UserId, y: UserId): Pair {
    if x < y then Pair(x, y) else Pair(y, x)
  }

  predicate AreMatched(db: Db, x: UserId, y: UserId) {
    RowKey(x, y) in db.matches && db.matches[RowKey(x, y)].status == Active
  }

  lemma AnswersIsReverse(db: Db, id: LikeId, from: UserId, to: UserId)
    ensures Answers(db, id, from, to) <==> IsReverse(db, to, from, id)
  {
  }

  lemma WaitsIsActionable(db: Db, id: LikeId, to: UserId)
    ensures Waits(db, id, to) <==> IsActionable(db, to, id)
  {
  }

  lemma UnblockedIsNotBlocked(db: Db, x: UserId, y: UserId)
    ensures Unblocked(db, x, y) <==> !IsBlocked(db, x, y)
  {
    BlockedEitherWay(db, x, y);
  }

  lemma MatchedIsActive(db: Db, x: UserId, y: UserId)
    ensures RowKey(x, y) == Sorted(x, y) && (AreMatched(db, x, y) <==> IsActive(db, Sorted(x, y)))
  {
  }

  // ---- The resolver's answer ----

  /** The reverse like is one that answers, and there is none only if none does. */
  ghost predicate Found(db: Db, rev: Option<LikeId>, from: UserId, to: UserId) {
    && (rev.Some? ==> Answers(db, rev.value, from, to))
    && (rev.None? ==> forall id :: !Answers(db, id, from, to))
  }

  /** The answer tells of a match exactly when the pair's row became ACTIVE just now. */
  ghost predicate TellsTheMatch(db: Db, db': Db, x: UserId, y: UserId, matched: Option<MatchId>) {
    forall m :: matched == Some(m)
           <==> !AreMatched(db, x, y) && AreMatched(db', x, y) && db'.matches[RowKey(x, y)].id == m
  }

  /** The two likes are now MATCHED and no other like has changed. */
  ghost predicate BothMatched(db: Db, db': Db, a: LikeId, b: LikeId) {
    && a in db.likes && b in db.likes
    && db'.likes == db.likes[a := db.likes[a].(status := Matched)][b := db.likes[b].(status := Matched)]
  }

  /** Resolving the like of summary `s` on an identity of `y`, with the reverse like found. */
  ghost predicate ResolvedTruly(db: Db, db': Db, s: Summary, y: UserId, rev: Option<LikeId>, matched: Option<MatchId>) {
    && Found(db, rev, y, s.sender)
    && TellsTheMatch(db, db', s.sender, y, matched)
    && (matched.Some? <==> && rev.Some? && IntentsFit(s.intent, db.likes[rev.value].intent)
                           && Unblocked(db, s.sender, y) && !AreMatched(db, s.sender, y))
    && (matched.None? ==> db' == db)
    && (matched.Some? ==> rev.Some? && BothMatched(db, db', s.id, rev.value))
  }

  lemma ResolveAnswersTruly(db: Db, s: Summary, rev: Option<LikeId>, newId: MatchId)
    requires Inv(db) && Current(db, s)
    requires s.owner.Some? ==> ReverseChoice(db, s.sender, s.owner.value, rev)
    ensures var (db', matched) := Resolve(db, s, rev, newId);
            && (s.owner.Some? ==> ResolvedTruly(db, db', s, s.owner.value, rev, matched))
            && (s.owner.None? ==> db' == db && matched == None)
  {
    if s.owner.Some? {
      var y := s.owner.value;
      ChoiceIsFound(db, s.sender, y, rev);
      UnblockedIsNotBlocked(db, s.sender, y);
      MatchedIsActive(db, s.sender, y);
      MatchedIsActive(Resolve(db, s, rev, newId).0, s.sender, y);
      if rev.Some? && Eligible(db, s.sender, y, s.intent, db.likes[rev.value].intent) {
        ResolveCommits(db, s, rev.value, newId);
      }
    }
  }

  /** A match of another pair uses one of the two likes in the same column. */
  ghost predicate UsedElsewhere(db: Db, x: UserId, y: UserId, own: LikeId, rev: LikeId) {
    exists q :: q in db.matches && q != RowKey(x, y)
                && (db.matches[q].likeOne == (if x <= y then own else rev) || db.matches[q].likeTwo == (if x <= y then rev else own))
  }

  /** In any tables, sound or not: with everything in place the answer is a match, unless a
      unique key stands in the way; then nothing is written, and the answer is the row the
      pair has, if it has one. */
  ghost predicate ConflictTold(db: Db, db': Db, s: Summary, y: UserId, rev: Option<LikeId>, matched: Option<MatchId>) {
    rev.Some? && rev.value in db.likes && s.id in db.likes && IntentsFit(s.intent, db.likes[rev.value].intent)
    && Unblocked(db, s.sender, y) && !AreMatched(db, s.sender, y) ==>
      if UsedElsewhere(db, s.sender, y, s.id, rev.value)
      then db' == db && matched == (if RowKey(s.sender, y) in db.matches then Some(db.matches[RowKey(s.sender, y)].id) else None)
      else matched.Some? && AreMatched(db', s.sender, y)
  }

  lemma ConflictIsTold(db: Db, s: Summary, rev: Option<LikeId>, newId: MatchId)
    requires s.owner.Some?
    ensures var (db', matched) := Resolve(db, s, rev, newId); ConflictTold(db, db', s, s.owner.value, rev, matched)
  {
    UnblockedIsNotBlocked(db, s.sender, s.owner.value);
    MatchedIsActive(db, s.sender, s.owner.value);
    MatchedIsActive(Resolve(db, s, rev, newId).0, s.sender, s.owner.value);
  }

  lemma ChoiceIsFound(db: Db, a: UserId, b: UserId, rev: Option<LikeId>)
    requires ReverseChoice(db, a, b, rev)
    ensures Found(db, rev, b, a)
  {
    forall id ensures Answers(db, id, b, a) <==> IsReverse(db, a, b, id) {
      AnswersIsReverse(db, id, b, a);
    }
  }

  // ---- What `create` answers ----

  /** The identity a request is aimed at. */
  ghost predicate AimedAt(db: Db, q: LikeRequest, i: IdentityId) {
    || q.target == ById(i)
    || (q.target.ByValue? && q.target.value in db.values && db.values[q.target.value] == i)
    || (q.target.ByValue? && q.target.value !in db.values && i == q.newIdentity)
  }

  /** A value nobody has is given a new identity, so only an id can miss. */
  ghost predicate IsThere(db: Db, q: LikeRequest, i: IdentityId) {
    i in db.owners || (q.target.ByValue? && q.target.value !in db.values)
  }

  predicate OwnedBy(db: Db, i: IdentityId, user: UserId) {
    i in db.owners && db.owners[i] == Some(user)
  }

  /** The reader's balance covers one credit. */
  predicate Affords(db: Db, user: UserId) {
    var rows := RowsOf(db.ledgers, user);
    CreditLedger.Granted(rows) - Max(CreditLedger.Spent(rows), CreditLedger.Lapsed(rows, db.now)) >= 1
  }

  ghost predicate HasLiveRow(db: Db, user: UserId, i: IdentityId) {
    exists id :: && id in db.likes && db.likes[id].sender == user && db.likes[id].target == i
                 && db.likes[id].deletedAt == None && db.likes[id].status == Pending
                 && (db.likes[id].expiresAt.Some? ==> db.cutoff < db.likes[id].expiresAt.value)
  }

  predicate MatchedWithOwner(db: Db, user: UserId, i: IdentityId) {
    i in db.owners && db.owners[i].Some? && AreMatched(db, user, db.owners[i].value)
  }

  /** Each answer by its own condition; the conditions exclude each other. */
  ghost predicate AnsweredTruly(db: Db, q: LikeRequest, result: CreateResult) {
    && (result == CreateResult.InsufficientCredits <==> !Affords(db, q.user))
    && (Affords(db, q.user) ==> (result == MissingTargetIdentity <==> q.target == Nothing))
    && (forall i :: Affords(db, q.user) && AimedAt(db, q, i) ==> AnsweredFor(db, q, i, result))
  }

  ghost predicate AnsweredFor(db: Db, q: LikeRequest, i: IdentityId, result: CreateResult) {
    && (result == IdentityNotFound <==> !IsThere(db, q, i))
    && (result == SelfLike <==> OwnedBy(db, i, q.user))
    && (result == AlreadyLiked <==> IsThere(db, q, i) && !OwnedBy(db, i, q.user) && HasLiveRow(db, q.user, i))
    && (result == AlreadyMatched <==> IsThere(db, q, i) && !OwnedBy(db, i, q.user) && !HasLiveRow(db, q.user, i)
                                      && MatchedWithOwner(db, q.user, i))
    && (result.Created? <==> IsThere(db, q, i) && !OwnedBy(db, i, q.user) && !HasLiveRow(db, q.user, i)
                             && !MatchedWithOwner(db, q.user, i))
  }

  /** What a refusal of the target means. */
  lemma RefusalMeans(db: Db, user: UserId, i: IdentityId)
    ensures var r := Refusal(db, user, i);
            && (r == Some(IdentityNotFound) <==> i !in db.owners)
            && (r == Some(SelfLike) <==> OwnedBy(db, i, user))
            && (r == Some(AlreadyLiked) <==> i in db.owners && !OwnedBy(db, i, user) && HasLiveRow(db, user, i))
            && (r == Some(AlreadyMatched) <==> i in db.owners && !OwnedBy(db, i, user) && !HasLiveRow(db, user, i)
                                               && MatchedWithOwner(db, user, i))
            && (r.None? <==> i in db.owners && !OwnedBy(db, i, user) && !HasLiveRow(db, user, i) && !MatchedWithOwner(db, user, i))
            && (r.Some? ==> r.value in {IdentityNotFound, SelfLike, AlreadyLiked, AlreadyMatched})
  {
    assert HasLiveRow(db, user, i)
      <==> exists id :: id in db.likes && SentTo(db.likes[id], user, i) && BlocksReliking(db.likes[id], db.cutoff) by {
      assert forall id :: id in db.likes ==>
        (SentTo(db.likes[id], user, i) && BlocksReliking(db.likes[id], db.cutoff)
         <==> && db.likes[id].sender == user && db.likes[id].target == i
              && db.likes[id].deletedAt == None && db.likes[id].status == Pending
              && (db.likes[id].expiresAt.Some? ==> db.cutoff < db.likes[id].expiresAt.value));
    }
    if i in db.owners && db.owners[i].Some? {
      MatchedIsActive(db, user, db.owners[i].value);
    }
  }

  lemma AffordsIsBalance(db: Db, user: UserId)
    ensures Affords(db, user) <==> CreditLedger.Balance(RowsOf(db.ledgers, user), db.now) >= CREDITS_PER_LIKE
  {
    CreditViews.BalanceClosed(RowsOf(db.ledgers, user), db.now);
  }

  /** Locating gives what the request is aimed at and changes nothing a refusal looks at. */
  lemma LocateAims(db: Db, q: LikeRequest)
    requires q.newIdentity !in db.owners
    ensures var (db1, located) := LocateIdentity(db, q.target, q.newIdentity);
            && (located.None? <==> q.target == Nothing)
            && (forall i: IdentityId :: AimedAt(db, q, i) <==> located == Some(i))
            && db1 == db.(owners := db1.owners, values := db1.values)
            && (located.Some? ==> (IsThere(db, q, located.value) <==> located.value in db1.owners))
            && (forall i :: i in db.owners ==> i in db1.owners && db1.owners[i] == db.owners[i])
            && (forall i :: i in db1.owners && i !in db.owners ==> i == q.newIdentity && db1.owners[i].None?)
  {
  }

  /** In sound tables `create` answers each request by these conditions. */
  lemma StoreAnswersTruly(db: Db, q: LikeRequest)
    requires Inv(db) && q.newIdentity !in db.owners
    requires !StoreLike(db, q).1.DuplicateRow?
    ensures AnsweredTruly(db, q, StoreLike(db, q).1)
  {
    var (db1, located) := LocateIdentity(db, q.target, q.newIdentity);
    AffordsIsBalance(db, q.user);
    LocateAims(db, q);
    if Affords(db, q.user) && located.Some? {
      var i := located.value;
      SameForRefusal(db, db1, q, i);
      RefusalMeans(db1, q.user, i);
      ChargeSucceeds(db1, q, i);
    }
  }

  lemma ChargeSucceeds(db: Db, q: LikeRequest, i: IdentityId)
    requires CreditLedger.Balance(RowsOf(db.ledgers, q.user), db.now) >= CREDITS_PER_LIKE
    ensures Charge(db, q, i).1.DuplicateRow? || Charge(db, q, i).1.Created?
  {
  }

  lemma SameForRefusal(db: Db, db1: Db, q: LikeRequest, i: IdentityId)
    requires IdentitiesOk(db) && AimedAt(db, q, i) && LocateIdentity(db, q.target, q.newIdentity) == (db1, Some(i))
    requires q.newIdentity !in db.owners
    ensures IsThere(db, q, i) <==> i in db1.owners
    ensures OwnedBy(db1, i, q.user) <==> OwnedBy(db, i, q.user)
    ensures HasLiveRow(db1, q.user, i) <==> HasLiveRow(db, q.user, i)
    ensures MatchedWithOwner(db1, q.user, i) <==> MatchedWithOwner(db, q.user, i)
  {
  }

  // ---- What `create` stores ----

  /** One row for (user, identity), with the intent and expiry asked for; one credit charged
      for it; and a match told exactly when one was made with the identity's owner. */
  ghost predicate StoredTruly(db: Db, db': Db, q: LikeRequest, i: IdentityId, like: LikeId, matched: Option<MatchId>) {
    && like in db'.likes
    && db'.likes[like] == Like(q.user, i, q.intent, if matched.Some? then Matched else Pending, q.expiresAt, None)
    && (forall id :: id in db'.likes && db'.likes[id].sender == q.user && db'.likes[id].target == i ==> id == like)
    && db'.likes.Keys == db.likes.Keys + {like}
    && (forall id :: id in db.likes && id != like && !(matched.Some? && q.rev == Some(id)) ==> db'.likes[id] == db.likes[id])
    && ChargedOne(db, db', q.user, like)
    && (if i in db.owners && db.owners[i].Some? then MatchedTruly(db, db', q, db.owners[i].value, matched)
        else matched == None && db'.matches == db.matches)
  }

  ghost predicate ChargedOne(db: Db, db': Db, user: UserId, like: LikeId) {
    var rows := RowsOf(db.ledgers, user);
    db'.ledgers == db.ledgers[user := rows + [CreditLedger.Row(|rows|, CreditLedger.Debit, 1, CreditLedger.LikeUsage, Some(like), None, db.now)]]
  }

  ghost predicate MatchedTruly(db: Db, db': Db, q: LikeRequest, owner: UserId, matched: Option<MatchId>) {
    && Found(db, q.rev, owner, q.user)
    && TellsTheMatch(db, db', q.user, owner, matched)
    && (matched.Some? <==> q.rev.Some? && IntentsFit(q.intent, db.likes[q.rev.value].intent) && Unblocked(db, q.user, owner))
    && (matched.Some? ==> q.rev.Some? && q.rev.value in db'.likes && db'.likes[q.rev.value].status == Matched)
    && (matched.None? ==> db'.matches == db.matches)
  }

  ghost predicate CreatedTruly(db: Db, db': Db, q: LikeRequest, result: CreateResult) {
    && AnsweredTruly(db, q, result)
    && (result.Created? ==> forall i :: AimedAt(db, q, i) ==> StoredTruly(db, db', q, i, result.like, result.matched))
    && (!result.Created? ==> db'.likes == db.likes && db'.matches == db.matches && db'.ledgers == db.ledgers)
  }

  /** Storing a like of `user` leaves the answers of others to them as they were. */
  lemma StoringLeavesAnswers(db: Db, stored: Db, like: LikeId, user: UserId, owner: UserId, rev: Option<LikeId>)
    requires LikesOk(db) && owner != user
    requires like in stored.likes && stored.likes == db.likes[like := stored.likes[like]] && stored.cutoff == db.cutoff
    requires stored.likes[like].sender == user && (like in db.likes ==> db.likes[like].sender == user)
    requires forall i :: i in db.owners ==> i in stored.owners && stored.owners[i] == db.owners[i]
    ensures Found(stored, rev, owner, user) <==> Found(db, rev, owner, user)
  {
    forall id ensures Answers(stored, id, owner, user) <==> Answers(db, id, owner, user) {
      if id in db.likes {
        assert LikeOk(db, db.likes[id]);
      }
    }
  }

  lemma SameBlocksUnblocked(db: Db, db': Db, x: UserId, y: UserId)
    requires db'.blocks == db.blocks
    ensures Unblocked(db', x, y) <==> Unblocked(db, x, y)
  {
  }

  /** The state between the transaction and the resolver. */
  lemma StoredBetween(db: Db, q: LikeRequest, i: IdentityId)
    requires Inv(db) && RequestOk(db, q) && StoreLike(db, q).1.Created? && AimedAt(db, q, i)
    ensures var (stored, result) := StoreLike(db, q);
            var like := result.like;
            && result.matched == None
            && like in stored.likes && stored.likes == db.likes[like := Like(q.user, i, q.intent, Pending, q.expiresAt, None)]
            && (like in db.likes ==> db.likes[like].sender == q.user && db.likes[like].target == i)
            && stored.matches == db.matches && stored.blocks == db.blocks && stored.cutoff == db.cutoff
            && (forall j :: j in db.owners ==> j in stored.owners && stored.owners[j] == db.owners[j])
            && (i !in db.owners ==> i in stored.owners && stored.owners[i] == None)
            && ChargedOne(db, stored, q.user, like)
            && Inv(stored) && Current(stored, SummaryOf(stored, like))
  {
    LocateAims(db, q);
    StoreLikeShape(db, q);
    StoreLikeKeepsInv(db, q);
    StoredLikeIsCurrent(db, q);
    StoreLikeCharges(db, q, q.user);
    var (db1, located) := LocateIdentity(db, q.target, q.newIdentity);
    assert StoreLike(db, q) == Charge(db1, q, i);
    ChargeWrites(db1, q, i);
  }

  lemma ChargeWrites(db: Db, q: LikeRequest, i: IdentityId)
    requires Charge(db, q, i).1.Created?
    ensures var (stored, result) := Charge(db, q, i);
            result.matched == None && ChargedOne(db, stored, q.user, result.like)
  {
  }

  lemma ResolvedAfterStoring(db: Db, q: LikeRequest, i: IdentityId, owner: UserId)
    requires Inv(db) && RequestOk(db, q) && RequestResolves(db, q) && StoreLike(db, q).1.Created? && AimedAt(db, q, i)
    requires i in db.owners && db.owners[i] == Some(owner) && owner != q.user && !AreMatched(db, q.user, owner)
    ensures var (db', result) := CreateLike(db, q);
            && result.Created? && MatchedTruly(db, db', q, owner, result.matched)
            && (if result.matched.Some? then q.rev.Some? && BothMatched(StoreLike(db, q).0, db', result.like, q.rev.value)
                else db'.likes == StoreLike(db, q).0.likes)
  {
    var (stored, result) := StoreLike(db, q);
    StoredBetween(db, q, i);
    var s := SummaryOf(stored, result.like);
    assert s == Summary(result.like, q.user, i, q.intent, Some(owner));
    ResolveAnswersTruly(stored, s, q.rev, q.newMatch);
    StoringLeavesAnswers(db, stored, result.like, q.user, owner, q.rev);
    SameBlocksUnblocked(db, stored, q.user, owner);
    assert q.rev.Some? ==> Answers(db, q.rev.value, owner, q.user);
  }

  lemma CreateAnswersTruly(db: Db, q: LikeRequest)
    requires Inv(db) && q.newIdentity !in db.owners && !CreateLike(db, q).1.DuplicateRow?
    requires CreateLike(db, q).1.Created? ==> RequestOk(db, q) && RequestResolves(db, q)
    ensures CreatedTruly(db, CreateLike(db, q).0, q, CreateLike(db, q).1)
  {
    StoreAnswersTruly(db, q);
    LocateAims(db, q);
    if CreateLike(db, q).1.Created? {
      assert StoreLike(db, q).1.Created?;
      forall i | AimedAt(db, q, i)
        ensures StoredTruly(db, CreateLike(db, q).0, q, i, CreateLike(db, q).1.like, CreateLike(db, q).1.matched)
      {
        CreateStoresTruly(db, q, i);
      }
    } else {
      RefusedStoresNothing(db, q);
    }
  }

  lemma RefusedStoresNothing(db: Db, q: LikeRequest)
    requires !StoreLike(db, q).1.Created?
    ensures var db' := StoreLike(db, q).0; db'.likes == db.likes && db'.matches == db.matches && db'.ledgers == db.ledgers
  {
  }

  lemma UnownedAfterStoring(db: Db, q: LikeRequest, i: IdentityId)
    requires Inv(db) && RequestOk(db, q) && StoreLike(db, q).1.Created? && AimedAt(db, q, i)
    requires !(i in db.owners && db.owners[i].Some?)
    ensures var stored := StoreLike(db, q).0;
            CreateLike(db, q) == (stored, Created(StoreLike(db, q).1.like, None))
  {
    StoredBetween(db, q, i);
  }

  /** The like table after the resolver, in terms of the one before the call. */
  lemma StoredLikesTruly(db: Db, stored: Db, db': Db, q: LikeRequest, i: IdentityId, like: LikeId, matched: Option<MatchId>)
    requires like in stored.likes && stored.likes == db.likes[like := Like(q.user, i, q.intent, Pending, q.expiresAt, None)]
    requires if matched.Some? then q.rev.Some? && q.rev.value != like && BothMatched(stored, db', like, q.rev.value)
             else db'.likes == stored.likes
    requires LikesUnique(db')
    ensures like in db'.likes
    ensures db'.likes[like] == Like(q.user, i, q.intent, if matched.Some? then Matched else Pending, q.expiresAt, None)
    ensures forall id :: id in db'.likes && db'.likes[id].sender == q.user && db'.likes[id].target == i ==> id == like
    ensures db'.likes.Keys == db.likes.Keys + {like}
    ensures forall id :: id in db.likes && id != like && !(matched.Some? && q.rev == Some(id)) ==> db'.likes[id] == db.likes[id]
  {
    OneRow(db', like, q.user, i);
  }

  lemma CreateStoresTruly(db: Db, q: LikeRequest, i: IdentityId)
    requires Inv(db) && RequestOk(db, q) && RequestResolves(db, q) && StoreLike(db, q).1.Created? && AimedAt(db, q, i)
    ensures var (db', result) := CreateLike(db, q);
            result.Created? && StoredTruly(db, db', q, i, result.like, result.matched)
  {
    var stored, like := StoreLike(db, q).0, StoreLike(db, q).1.like;
    StoredBetween(db, q, i);
    CreateLikeKeepsInv(db, q);
    CreateLikeCharges(db, q);
    if i in db.owners && db.owners[i].Some? {
      var owner := db.owners[i].value;
      NotRefusedBefore(db, q, i);
      ResolvedAfterStoring(db, q, i, owner);
      var matched := CreateLike(db, q).1.matched;
      assert matched.Some? ==> q.rev.value in db.likes && db.likes[q.rev.value].sender == owner;
      CreatedSame(db, q);
      StoredLikesTruly(db, stored, CreateLike(db, q).0, q, i, like, matched);
    } else {
      UnownedAfterStoring(db, q, i);
      StoredLikesTruly(db, stored, CreateLike(db, q).0, q, i, like, None);
    }
  }

  lemma NotRefusedBefore(db: Db, q: LikeRequest, i: IdentityId)
    requires Inv(db) && q.newIdentity !in db.owners && StoreLike(db, q).1.Created? && AimedAt(db, q, i)
    ensures !OwnedBy(db, i, q.user) && !MatchedWithOwner(db, q.user, i)
  {
    StoreAnswersTruly(db, q);
    LocateAims(db, q);
    assert AnsweredFor(db, q, i, StoreLike(db, q).1);
  }

  lemma CreatedSame(db: Db, q: LikeRequest)
    requires StoreLike(db, q).1.Created?
    ensures CreateLike(db, q).1.Created? && CreateLike(db, q).1.like == StoreLike(db, q).1.like
  {
  }

  lemma OneRow(db: Db, like: LikeId, user: UserId, i: IdentityId)
    requires LikesUnique(db) && like in db.likes && db.likes[like].sender == user && db.likes[like].target == i
    ensures forall id :: id in db.likes && db.likes[id].sender == user && db.likes[id].target == i ==> id == like
  {
  }

  // ---- The claim handler ----

  /** Resolving another sender's like leaves the likes of `user` that answer `sender`. */
  lemma OthersLeaveAnswers(db: Db, user: UserId, s: Summary, rev: Option<LikeId>, newId: MatchId, sender: UserId, id: LikeId)
    requires Inv(db) && Current(db, s) && s.owner == Some(user) && ReverseChoice(db, s.sender, user, rev)
    requires !IsActive(Resolve(db, s, rev, newId).0, Sorted(sender, user))
    ensures Answers(Resolve(db, s, rev, newId).0, id, user, sender) <==> Answers(db, id, user, sender)
  {
    if rev.Some? && Eligible(db, s.sender, user, s.intent, db.likes[rev.value].intent) {
      ResolveCommits(db, s, rev.value, newId);
      assert s.sender != sender;
      assert LikeOk(db, db.likes[s.id]);
    }
  }

  /** Nothing that happens in the loop to other pairs keeps this one from its match. */
  ghost predicate WillMatch(db: Db, user: UserId, sender: UserId, intent: Intent) {
    && (exists r :: Answers(db, r, user, sender))
    && (forall r :: Answers(db, r, user, sender) ==> IntentsFit(intent, db.likes[r].intent))
    && Unblocked(db, sender, user)
  }

  lemma WillMatchStays(db: Db, user: UserId, s: Summary, rev: Option<LikeId>, newId: MatchId, sender: UserId, intent: Intent)
    requires Inv(db) && Current(db, s) && s.owner == Some(user) && ReverseChoice(db, s.sender, user, rev)
    requires WillMatch(db, user, sender, intent)
    requires !IsActive(Resolve(db, s, rev, newId).0, Sorted(sender, user))
    ensures WillMatch(Resolve(db, s, rev, newId).0, user, sender, intent)
  {
    var db' := Resolve(db, s, rev, newId).0;
    forall r ensures Answers(db', r, user, sender) <==> Answers(db, r, user, sender) {
      OthersLeaveAnswers(db, user, s, rev, newId, sender, r);
    }
    ResolveKeepsBlocks(db, s, rev, newId);
    SameBlocksUnblocked(db, db', sender, user);
    ResolveKeepsIntents(db, s, rev, newId);
  }

  lemma ResolveKeepsIntents(db: Db, s: Summary, rev: Option<LikeId>, newId: MatchId)
    ensures var db' := Resolve(db, s, rev, newId).0;
            forall id :: id in db.likes ==> id in db'.likes && db'.likes[id].intent == db.likes[id].intent
  {
  }

  /** The pair is matched, or will be when the like is reached. */
  ghost predicate Promised(db: Db, user: UserId, sender: UserId, intent: Intent) {
    IsActive(db, Sorted(sender, user)) || WillMatch(db, user, sender, intent)
  }

  lemma PromiseStays(db: Db, user: UserId, s: Summary, rev: Option<LikeId>, newId: MatchId, sender: UserId, intent: Intent)
    requires Inv(db) && Current(db, s) && s.owner == Some(user) && ReverseChoice(db, s.sender, user, rev)
    requires Promised(db, user, sender, intent)
    ensures Promised(Resolve(db, s, rev, newId).0, user, sender, intent)
  {
    var db' := Resolve(db, s, rev, newId).0;
    if !IsActive(db', Sorted(sender, user)) {
      ActiveStays(db, s, rev, newId, Sorted(sender, user));
      WillMatchStays(db, user, s, rev, newId, sender, intent);
    }
  }

  lemma ActiveStays(db: Db, s: Summary, rev: Option<LikeId>, newId: MatchId, p: Pair)
    ensures IsActive(db, p) ==> IsActive(Resolve(db, s, rev, newId).0, p)
  {
  }

  /** What the loop's terms say of its first like, and that they hold of the rest. */
  lemma LoopUnfolds(db: Db, user: UserId, todo: seq<Summary>, revs: seq<Option<LikeId>>, ids: seq<MatchId>)
    requires 0 < |todo| == |revs| == |ids|
    requires Inv(db) && AllCurrent(db, todo) && AllTowards(todo, user) && LoopChoices(db, todo, revs, ids)
    ensures Current(db, todo[0]) && todo[0].owner == Some(user) && ReverseChoice(db, todo[0].sender, user, revs[0])
    ensures var db1 := Resolve(db, todo[0], revs[0], ids[0]).0;
            Inv(db1) && AllCurrent(db1, todo[1..]) && AllTowards(todo[1..], user) && LoopChoices(db1, todo[1..], revs[1..], ids[1..])
  {
    assert Current(db, todo[0]) && todo[0].owner == Some(user);
    ResolveKeepsInv(db, todo[0], revs[0], ids[0]);
    ResolveKeepsOthersCurrent(db, user, todo, revs[0], ids[0]);
  }

  lemma {:induction false} LoopMatches(db: Db, user: UserId, todo: seq<Summary>, revs: seq<Option<LikeId>>, ids: seq<MatchId>,
                                       k: nat, sender: UserId, intent: Intent)
    requires k < |todo| == |revs| == |ids| && todo[k].sender == sender && todo[k].intent == intent
    requires Inv(db) && AllCurrent(db, todo) && AllTowards(todo, user) && LoopChoices(db, todo, revs, ids)
    requires Promised(db, user, sender, intent)
    ensures IsActive(ResolveAll(db, todo, revs, ids), Sorted(sender, user))
    decreases k
  {
    var db1 := Resolve(db, todo[0], revs[0], ids[0]).0;
    LoopUnfolds(db, user, todo, revs, ids);
    assert ResolveAll(db, todo, revs, ids) == ResolveAll(db1, todo[1..], revs[1..], ids[1..]);
    if k == 0 {
      TheLikeItselfMatches(db, user, todo[0], revs[0], ids[0]);
      ResolveAllStaysActive(db1, todo[1..], revs[1..], ids[1..], Sorted(sender, user));
    } else {
      PromiseStays(db, user, todo[0], revs[0], ids[0], sender, intent);
      LoopMatches(db1, user, todo[1..], revs[1..], ids[1..], k - 1, sender, intent);
    }
  }

  lemma TheLikeItselfMatches(db: Db, user: UserId, s: Summary, rev: Option<LikeId>, newId: MatchId)
    requires Inv(db) && Current(db, s) && s.owner == Some(user) && ReverseChoice(db, s.sender, user, rev)
    requires Promised(db, user, s.sender, s.intent)
    ensures IsActive(Resolve(db, s, rev, newId).0, Sorted(s.sender, user))
  {
    ResolveAnswersTruly(db, s, rev, newId);
    MatchedIsActive(db, s.sender, user);
    MatchedIsActive(Resolve(db, s, rev, newId).0, s.sender, user);
  }

  /** Resolving never takes a pair out of ACTIVE. */
  lemma {:induction false} ResolveAllStaysActive(db: Db, todo: seq<Summary>, revs: seq<Option<LikeId>>, ids: seq<MatchId>, p: Pair)
    requires |todo| == |revs| == |ids| && IsActive(db, p)
    ensures IsActive(ResolveAll(db, todo, revs, ids), p)
    decreases |todo|
  {
    if todo != [] {
      ResolveAllStaysActive(Resolve(db, todo[0], revs[0], ids[0]).0, todo[1..], revs[1..], ids[1..], p);
    }
  }

  /** Whoever's like waits on an identity of the claimant: if the claimant has a like that
      answers, every such like fits the intent and no block stands, then every run of the
      handler leaves the two matched. */
  lemma WaitingLikesAreMatched(db: Db, user: UserId, order: seq<LikeId>, revs: seq<Option<LikeId>>, ids: seq<MatchId>, id: LikeId)
    requires Inv(db) && Enabled(db, HandleClaimed(user, order, revs, ids))
    requires Waits(db, id, user)
    requires var sender := db.likes[id].sender;
             && (exists r :: Answers(db, r, user, sender))
             && (forall r :: Answers(db, r, user, sender) ==> IntentsFit(db.likes[id].intent, db.likes[r].intent))
             && Unblocked(db, sender, user)
    ensures AreMatched(Next(db, HandleClaimed(user, order, revs, ids)), db.likes[id].sender, user)
  {
    var todo := Summaries(db, order);
    WaitsIsActionable(db, id, user);
    assert id in order;
    var k :| 0 <= k < |order| && order[k] == id;
    ActionableAreCurrent(db, user, order);
    LoopMatches(db, user, todo, revs, ids, k, db.likes[id].sender, db.likes[id].intent);
    MatchedIsActive(Next(db, HandleClaimed(user, order, revs, ids)), db.likes[id].sender, user);
  }

  /** The like waits, the claimant has likes that answer it, all of them fit, and nothing blocks. */
  ghost predicate MustMatch(db: Db, user: UserId, id: LikeId) {
    Waits(db, id, user) && WillMatch(db, user, db.likes[id].sender, db.likes[id].intent)
  }

  // ---- Rows that may be used again ----

  /** A row of (user, identity) that creation may take over: withdrawn, voided, deleted or expired. */
  ghost predicate MayBeReused(db: Db, id: LikeId, user: UserId, i: IdentityId) {
    && id in db.likes && db.likes[id].sender == user && db.likes[id].target == i
    && (|| db.likes[id].status in {Withdrawn, Voided, Deleted}
        || db.likes[id].deletedAt != None
        || (db.likes[id].status == Pending && db.likes[id].expiresAt.Some? && db.likes[id].expiresAt.value <= db.now))
  }

  lemma ReuseIsFound(db: Db, user: UserId, i: IdentityId, reuse: Option<LikeId>)
    ensures ReuseChoice(db, user, i, reuse)
            <==> (if reuse.Some? then MayBeReused(db, reuse.value, user, i) else forall id :: !MayBeReused(db, id, user, i))
  {
    forall id ensures MayBeReused(db, id, user, i) <==> id in db.likes && SentTo(db.likes[id], user, i) && IsReusable(db.likes[id], db.now) {
    }
  }

  // ---- A closed account ----

  /** Only registering and closing accounts change who is a user. */
  lemma StepUsers(db: Db, step: Step)
    requires Enabled(db, step)
    ensures Next(db, step).users
         == match step
            case Register(user) => db.users + {user}
            case CloseAccount(user) => db.users - {user}
            case _ => db.users
  {
    match step
    case Create(q) => CreateKeepsUsers(db, q);
    case HandleClaimed(user, order, revs, ids) => ResolveAllKeepsUsers(db, Summaries(db, order), revs, ids);
    case _ =>
  }

  lemma CreateKeepsUsers(db: Db, q: LikeRequest)
    ensures CreateLike(db, q).0.users == db.users
  {
    var (stored, result) := StoreLike(db, q);
    StoreKeepsUsers(db, q);
    if result.Created? && result.like in stored.likes {
      ResolveKeepsBlocks(stored, SummaryOf(stored, result.like), q.rev, q.newMatch);
    }
  }

  lemma ChargeKeepsUsers(db: Db, q: LikeRequest, i: IdentityId)
    ensures Charge(db, q, i).0.users == db.users
  {
  }

  lemma StoreKeepsUsers(db: Db, q: LikeRequest)
    ensures StoreLike(db, q).0.users == db.users
  {
    var (db1, located) := LocateIdentity(db, q.target, q.newIdentity);
    assert db1.users == db.users;
    if located.Some? {
      ChargeKeepsUsers(db1, q, located.value);
    }
  }

  lemma {:induction false} ResolveAllKeepsUsers(db: Db, todo: seq<Summary>, revs: seq<Option<LikeId>>, ids: seq<MatchId>)
    requires |todo| == |revs| == |ids|
    ensures ResolveAll(db, todo, revs, ids).users == db.users
    decreases |todo|
  {
    if todo != [] {
      ResolveKeepsBlocks(db, todo[0], revs[0], ids[0]);
      ResolveAllKeepsUsers(Resolve(db, todo[0], revs[0], ids[0]).0, todo[1..], revs[1..], ids[1..]);
    }
  }

  lemma StepLeavesNoLedger(db: Db, step: Step, u: UserId)
    requires Enabled(db, step) && u !in db.users && u !in db.ledgers
    ensures u !in Next(db, step).ledgers
  {
    match step
    case ExpireCredits(batch, asOf) => ExpiryFanOut.DeliveryIsPointwise(db.ledgers, batch, asOf);
    case Create(q) =>
      CreateLikeCharges(db, q);
      StoreTouchesOwnLedger(db, q, u);
    case HandleClaimed(user, order, revs, ids) => ResolveAllKeepsLedgers(db, Summaries(db, order), revs, ids);
    case _ =>
  }

  lemma ChargeTouchesOwnLedger(db: Db, q: LikeRequest, i: IdentityId, u: UserId)
    requires u != q.user
    ensures u in Charge(db, q, i).0.ledgers <==> u in db.ledgers
  {
  }

  lemma StoreTouchesOwnLedger(db: Db, q: LikeRequest, u: UserId)
    requires u != q.user
    ensures u in StoreLike(db, q).0.ledgers <==> u in db.ledgers
  {
    var (db1, located) := LocateIdentity(db, q.target, q.newIdentity);
    assert db1.ledgers == db.ledgers;
    if located.Some? {
      ChargeTouchesOwnLedger(db1, q, located.value, u);
    }
  }

  ghost predicate Gone(db: Db, u: UserId) {
    u !in db.users && u !in db.ledgers
  }

  lemma {:induction false} RunLeavesGone(db: Db, steps: seq<Step>, u: UserId)
    requires IsRun(db, steps) && Gone(db, u) && Register(u) !in steps
    ensures Gone(After(db, steps), u)
    decreases |steps|
  {
    if steps != [] {
      assert steps[0] in steps;
      StepUsers(db, steps[0]);
      StepLeavesNoLedger(db, steps[0], u);
      RunLeavesGone(Next(db, steps[0]), steps[1..], u);
    }
  }

  /** Once an account is closed, and until it registers again, it is no user and has no
      ledger; it can neither like, be granted credits, claim an identity nor block, and
      nobody can block it. */
  lemma ClosedStaysClosed(db: Db, u: UserId, steps: seq<Step>)
    requires u in db.users && IsRun(Next(db, CloseAccount(u)), steps) && Register(u) !in steps
    ensures var after := After(Next(db, CloseAccount(u)), steps);
            && u !in after.users && u !in after.ledgers
            && (forall step :: Enabled(after, step) ==>
                  && !(step.Create? && step.request.user == u) && !(step.GrantTo? && step.user == u)
                  && !(step.ClaimIdentity? && step.user == u) && !(step.BlockOther? && step.user == u))
            && (forall x, row, newId :: BlockUser(after, x, u, row, newId) == after)
  {
    RunLeavesGone(Next(db, CloseAccount(u)), steps, u);
  }

  /** The other party's like in some match of the user, whatever its status. */
  predicate IsOtherPartys(db: Db, user: UserId, id: LikeId) {
    exists p :: p in db.matches && ((p.one == user && db.matches[p].likeTwo == id)
                                    || (p.one != user && p.two == user && db.matches[p].likeOne == id))
  }

  /** What is left of the tables: the account, its ledger, its likes and its matches are gone,
      likes that pointed at it are VOIDED, its identities are unowned, the rest stays. */
  ghost predicate AccountRemoved(db: Db, db': Db, user: UserId) {
    && db'.users == db.users - {user}
    && db'.ledgers == db.ledgers - {user}
    && (forall p :: p in db'.matches <==> p in db.matches && p.one != user && p.two != user)
    && (forall p :: p in db'.matches ==> db'.matches[p] == db.matches[p])
    && (forall id :: id in db'.likes <==> id in db.likes && db.likes[id].sender != user)
    && (forall id :: id in db'.likes ==>
          db'.likes[id] == if PointsAt(db, user, id) then db.likes[id].(status := Voided) else db.likes[id])
    && db'.owners.Keys == db.owners.Keys
    && (forall i :: i in db.owners ==> db'.owners[i] == if db.owners[i] == Some(user) then None else db.owners[i])
    && db'.values == db.values && db'.now == db.now && db'.cutoff == db.cutoff
  }

  predicate PointsAt(db: Db, user: UserId, id: LikeId)
    requires id in db.likes
  {
    || IsOtherPartys(db, user, id)
    || (db.likes[id].target in db.owners && db.owners[db.likes[id].target] == Some(user) && db.likes[id].status == Pending)
  }

  lemma DeletionRemovesAccount(db: Db, user: UserId)
    requires user in db.users
    ensures AccountRemoved(db, DeleteAccount(db, user), user)
  {
    forall id | id in db.likes ensures VoidedByDeletion(db, user, id) <==> PointsAt(db, user, id) {
      OtherPartysIsCounterpart(db, user, id);
    }
  }

  lemma OtherPartysIsCounterpart(db: Db, user: UserId, id: LikeId)
    ensures IsCounterpart(db, user, id) <==> IsOtherPartys(db, user, id)
  {
  }
}
