/** What an unmatch prevents, and how the pair can come back. */
module UnmatchedPairs {
  import opened Prelude
  import CreditLedger
  import opened CreditsService
  import opened LikeMatch
  import opened LikeMatchInvariant
  import opened LikeMatchRuns

  /** The pair is not ACTIVE, and `a` has no live like that could complete a match when
      `b` likes `a`. */
  ghost predicate Dormant(db: Db, a: UserId, b: UserId) {
    !IsActive(db, Sorted(a, b)) && forall id :: !IsReverse(db, b, a, id)
  }

  /** The user a step acts for; the claim handler and the clock act for nobody. */
  function Actor(step: Step): Option<UserId> {
    match step
    case Register(user) => Some(user)
    case Create(q) => Some(q.user)
    case Delete(user, _) => Some(user)
    case Dissolve(user, _) => Some(user)
    case ClaimIdentity(user, _, _) => Some(user)
    case BlockOther(user, _, _, _) => Some(user)
    case LiftBlock(user, _) => Some(user)
    case CloseAccount(user) => Some(user)
    case _ => None
  }

  /** `a` takes no step, and `b` claims no identity on which `a` has a live like. */
  ghost predicate Without(db: Db, step: Step, a: UserId, b: UserId) {
    && Actor(step) != Some(a)
    && match step
       case ClaimIdentity(user, v, _) =>
         user == b && v in db.values ==>
           forall id :: id in db.likes && SentTo(db.likes[id], a, db.values[v]) ==>
             !((db.likes[id].status.Pending? || db.likes[id].status.Voided?) && db.likes[id].deletedAt.None? && PassesFilter(db.likes[id], db.cutoff))
       case _ => true
  }

  ghost predicate RunWithout(db: Db, steps: seq<Step>, a: UserId, b: UserId)
    requires IsRun(db, steps)
    decreases |steps|
  {
    steps == [] || (Without(db, steps[0], a, b) && RunWithout(Next(db, steps[0]), steps[1..], a, b))
  }

  // ---- Every step keeps the pair dormant ----

  lemma ResolveKeepsDormant(db: Db, s: Summary, rev: Option<LikeId>, newId: MatchId, a: UserId, b: UserId)
    requires Inv(db) && Current(db, s) && Dormant(db, a, b)
    requires s.owner.Some? ==> ReverseChoice(db, s.sender, s.owner.value, rev)
    ensures Dormant(Resolve(db, s, rev, newId).0, a, b)
  {
    var db' := Resolve(db, s, rev, newId).0;
    if s.owner.Some? && rev.Some? && Eligible(db, s.sender, s.owner.value, s.intent, db.likes[rev.value].intent) {
      ResolveCommits(db, s, rev.value, newId);
      forall id ensures !IsReverse(db', b, a, id) {
        assert !IsReverse(db, b, a, id);
      }
      assert !IsReverse(db, b, a, s.id) && !IsReverse(db, b, a, rev.value);
      assert LikeOk(db, db.likes[s.id]);
      assert Sorted(s.sender, s.owner.value) != Sorted(a, b);
    }
  }

  lemma {:induction false} ResolveAllKeepsDormant(db: Db, user: UserId, todo: seq<Summary>, revs: seq<Option<LikeId>>,
                                                  ids: seq<MatchId>, a: UserId, b: UserId)
    requires |todo| == |revs| == |ids|
    requires Inv(db) && AllCurrent(db, todo) && AllTowards(todo, user) && LoopChoices(db, todo, revs, ids) && Dormant(db, a, b)
    ensures Dormant(ResolveAll(db, todo, revs, ids), a, b)
    decreases |todo|
  {
    if todo != [] {
      ResolveKeepsInv(db, todo[0], revs[0], ids[0]);
      ResolveKeepsDormant(db, todo[0], revs[0], ids[0], a, b);
      ResolveKeepsOthersCurrent(db, user, todo, revs[0], ids[0]);
      ResolveAllKeepsDormant(Resolve(db, todo[0], revs[0], ids[0]).0, user, todo[1..], revs[1..], ids[1..], a, b);
    }
  }

  lemma CreateKeepsDormant(db: Db, q: LikeRequest, a: UserId, b: UserId)
    requires Inv(db) && RequestOk(db, q) && RequestResolves(db, q) && Dormant(db, a, b) && q.user != a
    ensures Dormant(CreateLike(db, q).0, a, b)
  {
    var (stored, result) := StoreLike(db, q);
    StoreKeepsDormant(db, q, a, b);
    StoreLikeKeepsInv(db, q);
    StoreLikeNeverDuplicates(db, q);
    if result.Created? {
      StoredLikeIsCurrent(db, q);
      ResolveKeepsDormant(stored, SummaryOf(stored, result.like), q.rev, q.newMatch, a, b);
    }
  }

  lemma LocateKeepsDormant(db: Db, target: Target, newIdentity: IdentityId, a: UserId, b: UserId)
    requires LikesOk(db) && newIdentity !in db.owners && Dormant(db, a, b)
    ensures Dormant(LocateIdentity(db, target, newIdentity).0, a, b)
  {
    var db1 := LocateIdentity(db, target, newIdentity).0;
    forall id ensures !IsReverse(db1, b, a, id) {
      assert !IsReverse(db, b, a, id);
      if id in db.likes {
        assert LikeOk(db, db.likes[id]);
      }
    }
  }

  lemma PersistKeepsDormant(db: Db, db': Db, own: LikeId, a: UserId, b: UserId)
    requires Dormant(db, a, b) && own in db'.likes && db'.likes[own].sender != a
    requires db'.likes == db.likes[own := db'.likes[own]]
    requires db'.matches == db.matches && db'.owners == db.owners && db'.cutoff == db.cutoff
    ensures Dormant(db', a, b)
  {
    forall id ensures !IsReverse(db', b, a, id) {
      assert !IsReverse(db, b, a, id);
    }
  }

  lemma StoreKeepsDormant(db: Db, q: LikeRequest, a: UserId, b: UserId)
    requires LikesOk(db) && RequestOk(db, q) && Dormant(db, a, b) && q.user != a
    ensures Dormant(StoreLike(db, q).0, a, b)
  {
    var (db1, located) := LocateIdentity(db, q.target, q.newIdentity);
    var (stored, result) := StoreLike(db, q);
    LocateKeepsDormant(db, q.target, q.newIdentity, a, b);
    if result.Created? {
      StoreLikeShape(db, q);
      PersistKeepsDormant(db1, stored, result.like, a, b);
    } else {
      assert stored == db || stored == db1;
    }
  }

  lemma UnmatchKeepsDormant(db: Db, user: UserId, p: Pair, a: UserId, b: UserId)
    requires Inv(db) && Dormant(db, a, b) && user != a
    ensures Dormant(Unmatch(db, user, p), a, b)
  {
    var db' := Unmatch(db, user, p);
    if CanUnmatch(db, user, p) {
      UnmatchWrites(db, user, p);
      assert MatchOk(db, p, db.matches[p]);
      forall id ensures !IsReverse(db', b, a, id) {
        assert !IsReverse(db, b, a, id);
      }
    }
  }

  lemma ClaimKeepsDormant(db: Db, user: UserId, v: PublicValue, newIdentity: IdentityId, a: UserId, b: UserId)
    requires LikesOk(db) && Dormant(db, a, b) && newIdentity !in db.owners
    requires Without(db, ClaimIdentity(user, v, newIdentity), a, b)
    ensures Dormant(Claim(db, user, v, newIdentity), a, b)
  {
    var db' := Claim(db, user, v, newIdentity);
    forall id ensures !IsReverse(db', b, a, id) {
      assert !IsReverse(db, b, a, id);
      if id in db.likes {
        assert LikeOk(db, db.likes[id]);
        assert v in db.values && db.values[v] == db.likes[id].target ==> SentTo(db.likes[id], db.likes[id].sender, db.values[v]);
      }
    }
  }

  lemma DeletionKeepsDormant(db: Db, user: UserId, a: UserId, b: UserId)
    requires MatchesOk(db) && Dormant(db, a, b) && user != a
    ensures Dormant(DeleteAccount(db, user), a, b)
  {
    var db' := DeleteAccount(db, user);
    forall id ensures !IsReverse(db', b, a, id) {
      assert !IsReverse(db, b, a, id);
      if user in db.users && IsCounterpart(db, user, id) {
        CounterpartPointsAtUser(db, user, id);
      }
    }
  }

  lemma DeleteKeepsDormant(db: Db, user: UserId, like: LikeId, a: UserId, b: UserId)
    requires Dormant(db, a, b)
    ensures Dormant(DeleteLike(db, user, like), a, b)
  {
    forall id ensures !IsReverse(DeleteLike(db, user, like), b, a, id) {
      assert !IsReverse(db, b, a, id);
    }
  }

  /** Steps that touch neither likes nor matches nor owners. */
  lemma OtherTablesKeepDormant(db: Db, db': Db, a: UserId, b: UserId)
    requires Dormant(db, a, b)
    requires db'.matches == db.matches && db'.owners == db.owners && db'.likes == db.likes && db.cutoff <= db'.cutoff
    ensures Dormant(db', a, b)
  {
    forall id ensures !IsReverse(db', b, a, id) {
      assert !IsReverse(db, b, a, id);
    }
  }

  lemma StepKeepsDormant(db: Db, step: Step, a: UserId, b: UserId)
    requires Inv(db) && Enabled(db, step) && Dormant(db, a, b) && Without(db, step, a, b)
    ensures Dormant(Next(db, step), a, b)
  {
    match step
    case Create(q) => CreateKeepsDormant(db, q, a, b);
    case Delete(user, like) => DeleteKeepsDormant(db, user, like, a, b);
    case Dissolve(user, p) => UnmatchKeepsDormant(db, user, p, a, b);
    case ClaimIdentity(user, v, newIdentity) => ClaimKeepsDormant(db, user, v, newIdentity, a, b);
    case HandleClaimed(user, order, revs, ids) =>
      ActionableAreCurrent(db, user, order);
      ResolveAllKeepsDormant(db, user, Summaries(db, order), revs, ids, a, b);
    case CloseAccount(user) => DeletionKeepsDormant(db, user, a, b);
    case Register(user) => OtherTablesKeepDormant(db, Next(db, step), a, b);
    case GrantTo(user, amount, source, ref, expiresAt) => OtherTablesKeepDormant(db, Next(db, step), a, b);
    case ExpireCredits(batch, asOf) => OtherTablesKeepDormant(db, Next(db, step), a, b);
    case BlockOther(user, other, row, newId) => OtherTablesKeepDormant(db, Next(db, step), a, b);
    case LiftBlock(user, block) => OtherTablesKeepDormant(db, Next(db, step), a, b);
    case Wait(until, restart) => OtherTablesKeepDormant(db, Next(db, step), a, b);
  }

  lemma {:induction false} RunKeepsDormant(db: Db, steps: seq<Step>, a: UserId, b: UserId)
    requires Inv(db) && IsRun(db, steps) && Dormant(db, a, b) && RunWithout(db, steps, a, b)
    ensures Dormant(After(db, steps), a, b)
    decreases |steps|
  {
    if steps != [] {
      StepKeepsInv(db, steps[0]);
      StepKeepsDormant(db, steps[0], a, b);
      RunKeepsDormant(Next(db, steps[0]), steps[1..], a, b);
    }
  }

  // ---- The theorems ----

  /** Unmatching leaves the pair dormant exactly when the initiator has no other live
      PENDING or VOIDED like on an identity of the other party. */
  lemma UnmatchMakesDormant(db: Db, a: UserId, b: UserId)
    requires Inv(db) && a != b && CanUnmatch(db, a, Sorted(a, b))
    ensures Dormant(Unmatch(db, a, Sorted(a, b)), a, b) <==> forall id :: !IsReverse(db, b, a, id)
  {
    var p := Sorted(a, b);
    UnmatchWrites(db, a, p);
    assert MatchOk(db, p, db.matches[p]);
    SameReverses(db, Unmatch(db, a, p), p, a, b);
  }

  /** The initiator's own like was MATCHED and is WITHDRAWN: neither can complete a match. */
  lemma SameReverses(db: Db, db': Db, p: Pair, a: UserId, b: UserId)
    requires p in db.matches && db'.owners == db.owners && db'.cutoff == db.cutoff && db'.likes.Keys == db.likes.Keys
    requires var m := db.matches[p];
             var own, other := if a == p.one then m.likeOne else m.likeTwo, if a == p.one then m.likeTwo else m.likeOne;
             && own in db.likes && other in db.likes && own != other
             && db.likes[own].status.Matched? && db'.likes[own].status.Withdrawn? && db.likes[other].sender != a
             && db'.likes[other].sender != a
             && forall id :: id in db.likes && id != own && id != other ==> db'.likes[id] == db.likes[id]
    ensures forall id :: IsReverse(db', b, a, id) <==> IsReverse(db, b, a, id)
  {
  }

  /** After `a` unmatched `b`, and with no other live like of `a` on `b`, no run in which
      `a` stays passive and `b` claims nothing `a` likes makes the pair ACTIVE again,
      however often `b` likes `a`. */
  lemma UnmatchedStaysUnmatched(db: Db, a: UserId, b: UserId, steps: seq<Step>)
    requires Inv(db) && a != b && CanUnmatch(db, a, Sorted(a, b)) && forall id :: !IsReverse(db, b, a, id)
    requires var db' := Unmatch(db, a, Sorted(a, b)); IsRun(db', steps) && RunWithout(db', steps, a, b)
    ensures !IsActive(After(Unmatch(db, a, Sorted(a, b)), steps), Sorted(a, b))
  {
    var db' := Unmatch(db, a, Sorted(a, b));
    UnmatchKeepsInv(db, a, Sorted(a, b));
    UnmatchMakesDormant(db, a, b);
    RunKeepsDormant(db', steps, a, b);
  }

  /** The pair's own row is ACTIVE on the two likes, and no row was added to either table. */
  ghost predicate Rematched(db: Db, db': Db, p: Pair, own: LikeId, r: LikeId) {
    && p in db.matches && IsActive(db', p) && db'.matches[p].id == db.matches[p].id
    && db'.matches.Keys == db.matches.Keys && db'.likes.Keys == db.likes.Keys
    && own in db'.likes && db'.likes[own].status.Matched? && r in db'.likes && db'.likes[r].status.Matched?
    && NamedBy(db', p, own) && NamedBy(db', p, r)
  }

  /** When `a` likes `b` again, by identity or by value, on a row they already have, and `b` still has a live like
      on `a` (left PENDING or VOIDED) that is compatible and unblocked, the dissolved match
      row itself is reactivated: no new row appears in either table. */
  lemma RelikeReactivates(db: Db, q: LikeRequest, i: IdentityId, b: UserId, r: LikeId)
    requires Inv(db) && RequestOk(db, q) && RequestResolves(db, q)
    requires LocateIdentity(db, q.target, q.newIdentity).1 == Some(i) && Owner(db, i) == Some(b) && b != q.user
    requires q.reuse.Some? && !IsActive(db, Sorted(q.user, b)) && Sorted(q.user, b) in db.matches
    requires !exists id :: id in db.likes && SentTo(db.likes[id], q.user, i) && BlocksReliking(db.likes[id], db.cutoff)
    requires CreditLedger.Balance(RowsOf(db.ledgers, q.user), db.now) >= CREDITS_PER_LIKE
    requires IsReverse(db, q.user, b, r) && forall id :: IsReverse(db, q.user, b, id) ==> id == r
    requires Compatible(q.intent, db.likes[r].intent) && !IsBlocked(db, q.user, b)
    ensures var (db', result) := CreateLike(db, q);
            var p := Sorted(q.user, b);
            && result == Created(q.reuse.value, Some(db.matches[p].id))
            && Rematched(db, db', p, q.reuse.value, r)
  {
    var (stored, result) := StoreLike(db, q);
    var own := q.reuse.value;
    RelikeMeets(db, q, i, b, r);
    CreateResolves(db, q, stored, own);
    RematchCommits(stored, SummaryOf(stored, own), r, q.newMatch);
    RematchedFrom(db, stored, CreateLike(db, q).0, Sorted(q.user, b), own, r);
  }

  /** Storing the like again leaves it current and eligible against the reverse like, which
      the lookup returns. */
  lemma RelikeMeets(db: Db, q: LikeRequest, i: IdentityId, b: UserId, r: LikeId)
    requires Inv(db) && RequestOk(db, q) && RequestResolves(db, q)
    requires LocateIdentity(db, q.target, q.newIdentity).1 == Some(i) && Owner(db, i) == Some(b) && b != q.user
    requires q.reuse.Some? && !IsActive(db, Sorted(q.user, b))
    requires !exists id :: id in db.likes && SentTo(db.likes[id], q.user, i) && BlocksReliking(db.likes[id], db.cutoff)
    requires CreditLedger.Balance(RowsOf(db.ledgers, q.user), db.now) >= CREDITS_PER_LIKE
    requires IsReverse(db, q.user, b, r) && forall id :: IsReverse(db, q.user, b, id) ==> id == r
    requires Compatible(q.intent, db.likes[r].intent) && !IsBlocked(db, q.user, b)
    ensures var (stored, result) := StoreLike(db, q);
            && result == Created(q.reuse.value, None) && q.reuse.value in stored.likes && q.rev == Some(r)
            && stored.matches == db.matches && stored.likes.Keys == db.likes.Keys
            && var s := SummaryOf(stored, q.reuse.value);
            && Inv(stored) && Current(stored, s) && s.owner == Some(b) && s.sender == q.user
            && IsReverse(stored, q.user, b, r) && Eligible(stored, q.user, b, s.intent, stored.likes[r].intent)
  {
    var (stored, result) := StoreLike(db, q);
    RelikeStores(db, q, i, b);
    StoreLikeKeepsInv(db, q);
    StoredLikeIsCurrent(db, q);
    SameReverseLikes(db, stored, q.reuse.value, q.user, b);
    SameBlocks(db, stored, q.user, b);
    RelikeFinds(stored, SummaryOf(stored, q.reuse.value), q.rev, b, r);
  }

  lemma CreateResolves(db: Db, q: LikeRequest, stored: Db, like: LikeId)
    requires StoreLike(db, q) == (stored, Created(like, None)) && like in stored.likes
    ensures var (db', matched) := Resolve(stored, SummaryOf(stored, like), q.rev, q.newMatch);
            CreateLike(db, q) == (db', Created(like, matched))
  {
  }

  lemma RematchedFrom(db: Db, stored: Db, db': Db, p: Pair, own: LikeId, r: LikeId)
    requires Rematched(stored, db', p, own, r) && stored.matches == db.matches && stored.likes.Keys == db.likes.Keys
    ensures Rematched(db, db', p, own, r)
  {
  }

  /** With one live reverse like, that is the one the lookup returns. */
  lemma RelikeFinds(db: Db, s: Summary, rev: Option<LikeId>, b: UserId, r: LikeId)
    requires ReverseChoice(db, s.sender, b, rev)
    requires IsReverse(db, s.sender, b, r) && forall id :: IsReverse(db, s.sender, b, id) ==> id == r
    ensures rev == Some(r)
  {
  }

  lemma SameBlocks(db: Db, db': Db, x: UserId, y: UserId)
    requires db'.blocks == db.blocks
    ensures IsBlocked(db', x, y) <==> IsBlocked(db, x, y)
  {
  }

  /** Resolving against a dissolved row of the pair reactivates that row. */
  lemma RematchCommits(db: Db, s: Summary, r: LikeId, newId: MatchId)
    requires Inv(db) && Current(db, s) && s.owner.Some? && IsReverse(db, s.sender, s.owner.value, r)
    requires Eligible(db, s.sender, s.owner.value, s.intent, db.likes[r].intent)
    requires Sorted(s.sender, s.owner.value) in db.matches
    ensures var p := Sorted(s.sender, s.owner.value);
            var (db', matched) := Resolve(db, s, Some(r), newId);
            matched == Some(db.matches[p].id) && Rematched(db, db', p, s.id, r)
  {
    ResolveCommits(db, s, r, newId);
  }

  lemma RelikeStores(db: Db, q: LikeRequest, i: IdentityId, b: UserId)
    requires LocateIdentity(db, q.target, q.newIdentity).1 == Some(i) && Owner(db, i) == Some(b) && b != q.user
    requires q.reuse.Some? && !IsActive(db, Sorted(q.user, b))
    requires !exists id :: id in db.likes && SentTo(db.likes[id], q.user, i) && BlocksReliking(db.likes[id], db.cutoff)
    requires CreditLedger.Balance(RowsOf(db.ledgers, q.user), db.now) >= CREDITS_PER_LIKE
    requires RequestOk(db, q)
    ensures var (stored, result) := StoreLike(db, q);
            && result == Created(q.reuse.value, None)
            && q.reuse.value in db.likes && db.likes[q.reuse.value].sender == q.user
            && stored == db.(likes := db.likes[q.reuse.value := Like(q.user, i, q.intent, Pending, q.expiresAt, None)],
                             ledgers := stored.ledgers)
  {
  }

  lemma SameReverseLikes(db: Db, stored: Db, own: LikeId, a: UserId, b: UserId)
    requires a != b && own in db.likes && db.likes[own].sender == a && own in stored.likes && stored.likes[own].sender == a
    requires stored.owners == db.owners && stored.cutoff == db.cutoff && stored.likes == db.likes[own := stored.likes[own]]
    ensures forall id :: IsReverse(stored, a, b, id) <==> IsReverse(db, a, b, id)
  {
  }
}
