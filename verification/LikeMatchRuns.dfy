/** Whole runs of the like–match tables: the invariant in every reachable state, no match
    under a block, one debit per like, and what account deletion leaves behind. */
module LikeMatchRuns {
  import opened Prelude
  import CreditLedger
  import CreditRuns
  import CreditViews
  import opened CreditsService
  import ExpiryFanOut
  import opened LikeMatch
  import opened LikeMatchInvariant

  datatype Step =
    | Register(user: UserId)
    | GrantTo(user: UserId, amount: nat, source: CreditLedger.Source, ref: Option<nat>, expiresAt: Option<int>)
    | ExpireCredits(batch: seq<UserId>, asOf: int)
    | Create(request: LikeRequest)
    | Delete(user: UserId, like: LikeId)
    | Dissolve(user: UserId, pair: Pair)
    | ClaimIdentity(user: UserId, value: PublicValue, newIdentity: IdentityId)
    | HandleClaimed(user: UserId, order: seq<LikeId>, revs: seq<Option<LikeId>>, ids: seq<MatchId>)
    | BlockOther(user: UserId, other: UserId, row: Option<BlockId>, newId: BlockId)
    | LiftBlock(user: UserId, block: BlockId)
    | CloseAccount(user: UserId)
    | Wait(until: int, restart: bool)

  function Summaries(db: Db, order: seq<LikeId>): (todo: seq<Summary>)
    requires forall k :: 0 <= k < |order| ==> order[k] in db.likes
    ensures |todo| == |order| && forall k :: 0 <= k < |order| ==> todo[k] == SummaryOf(db, order[k])
  {
    if order == [] then [] else [SummaryOf(db, order[0])] + Summaries(db, order[1..])
  }

  /** The handler picks up every actionable like once, in some order. */
  ghost predicate ListsActionable(db: Db, user: UserId, order: seq<LikeId>) {
    && (forall k :: 0 <= k < |order| ==> IsActionable(db, user, order[k]))
    && (forall id :: IsActionable(db, user, id) ==> id in order)
    && (forall j, k :: 0 <= j < k < |order| ==> order[j] != order[k])
  }

  ghost predicate Enabled(db: Db, step: Step) {
    match step
    case Register(_) => true
    case GrantTo(user, _, source, _, expiresAt) =>
      user in db.users && source != CreditLedger.LikeUsage && (expiresAt.Some? ==> expiresAt.value > db.now)
    case ExpireCredits(_, asOf) => asOf <= db.now
    case Create(q) => RequestOk(db, q) && RequestResolves(db, q)
    case Delete(_, _) => true
    case Dissolve(_, _) => true
    case ClaimIdentity(user, v, newIdentity) => user in db.users && newIdentity !in db.owners && NoOwnLike(db, user, v)
    case HandleClaimed(user, order, revs, ids) =>
      |order| == |revs| == |ids| && ListsActionable(db, user, order) && LoopChoices(db, Summaries(db, order), revs, ids)
    case BlockOther(user, other, row, newId) => user in db.users && BlockChoice(db, user, other, row) && newId !in db.blocks
    case LiftBlock(_, _) => true
    case CloseAccount(_) => true
    case Wait(until, _) => db.now <= until
  }

  ghost function Next(db: Db, step: Step): Db
    requires Enabled(db, step)
  {
    match step
    case Register(user) => db.(users := db.users + {user})
    case GrantTo(user, amount, source, ref, expiresAt) =>
      db.(ledgers := db.ledgers[user := CreditLedger.Grant(RowsOf(db.ledgers, user), amount, source, ref, expiresAt, db.now)])
    case ExpireCredits(batch, asOf) => db.(ledgers := ExpireUsers(db.ledgers, batch, asOf))
    case Create(q) => CreateLike(db, q).0
    case Delete(user, like) => DeleteLike(db, user, like)
    case Dissolve(user, pair) => Unmatch(db, user, pair)
    case ClaimIdentity(user, v, newIdentity) => Claim(db, user, v, newIdentity)
    case HandleClaimed(user, order, revs, ids) =>
      ResolveAll(db, Summaries(db, order), revs, ids)
    case BlockOther(user, other, row, newId) => BlockUser(db, user, other, row, newId)
    case LiftBlock(user, block) => Unblock(db, user, block)
    case CloseAccount(user) => DeleteAccount(db, user)
    case Wait(until, restart) => db.(now := until, cutoff := if restart then until else db.cutoff)
  }

  ghost predicate IsRun(db: Db, steps: seq<Step>)
    decreases |steps|
  {
    steps == [] || (Enabled(db, steps[0]) && IsRun(Next(db, steps[0]), steps[1..]))
  }

  ghost function After(db: Db, steps: seq<Step>): Db
    requires IsRun(db, steps)
    decreases |steps|
  {
    if steps == [] then db else After(Next(db, steps[0]), steps[1..])
  }

  function EmptyDb(now: int): Db {
    Db({}, map[], map[], map[], map[], map[], map[], now, now)
  }

  lemma ActionableAreCurrent(db: Db, user: UserId, order: seq<LikeId>)
    requires ListsActionable(db, user, order)
    ensures AllCurrent(db, Summaries(db, order)) && AllTowards(Summaries(db, order), user)
  {
  }

  // ---- The invariant in every reachable state ----

  /** Steps that touch neither identities nor likes nor matches. */
  predicate SparesLikes(step: Step) {
    step.Register? || step.GrantTo? || step.ExpireCredits? || step.BlockOther? || step.LiftBlock? || step.Wait?
  }

  lemma SparingStepKeepsInv(db: Db, step: Step)
    requires Inv(db) && Enabled(db, step) && SparesLikes(step)
    ensures Inv(Next(db, step))
  {
    OtherTablesKeepInv(db, Next(db, step));
  }

  lemma StepKeepsInv(db: Db, step: Step)
    requires Inv(db) && Enabled(db, step)
    ensures Inv(Next(db, step))
  {
    match step
    case Create(q) => CreateLikeKeepsInv(db, q);
    case Delete(user, like) => DeleteLikeKeepsInv(db, user, like);
    case Dissolve(user, pair) => UnmatchKeepsInv(db, user, pair);
    case ClaimIdentity(user, v, newIdentity) => ClaimKeepsInv(db, user, v, newIdentity);
    case HandleClaimed(user, order, revs, ids) =>
      ActionableAreCurrent(db, user, order);
      ResolveAllKeepsInv(db, user, Summaries(db, order), revs, ids);
    case CloseAccount(user) => DeleteAccountKeepsInv(db, user);
    case _ => SparingStepKeepsInv(db, step);
  }

  lemma {:induction false} RunKeepsInv(db: Db, steps: seq<Step>)
    requires Inv(db) && IsRun(db, steps)
    ensures Inv(After(db, steps))
    decreases |steps|
  {
    if steps != [] {
      StepKeepsInv(db, steps[0]);
      RunKeepsInv(Next(db, steps[0]), steps[1..]);
    }
  }

  /** Every state reachable from empty tables. */
  lemma ReachableStatesAreSound(start: int, steps: seq<Step>)
    requires IsRun(EmptyDb(start), steps)
    ensures Inv(After(EmptyDb(start), steps))
  {
    RunKeepsInv(EmptyDb(start), steps);
  }

  /** In a reachable state creating a like never violates the (sender, target) key. */
  lemma CreationNeverDuplicates(start: int, steps: seq<Step>, q: LikeRequest)
    requires IsRun(EmptyDb(start), steps)
    requires RequestOk(After(EmptyDb(start), steps), q) && RequestResolves(After(EmptyDb(start), steps), q)
    ensures var (db', result) := CreateLike(After(EmptyDb(start), steps), q);
            !result.DuplicateRow? && LikesUnique(db')
  {
    RunKeepsInv(EmptyDb(start), steps);
    CreateLikeKeepsInv(After(EmptyDb(start), steps), q);
  }

  // ---- No match under a block ----

  /** Resolving a like can only turn its own pair active, and only when eligible. */
  lemma ResolveActivates(db: Db, s: Summary, rev: Option<LikeId>, newId: MatchId, q: Pair)
    requires IsActive(Resolve(db, s, rev, newId).0, q) && !IsActive(db, q)
    ensures s.owner.Some? && rev.Some? && rev.value in db.likes && q == Sorted(s.sender, s.owner.value)
    ensures Eligible(db, s.sender, s.owner.value, s.intent, db.likes[rev.value].intent)
  {
  }

  lemma ResolveKeepsBlocks(db: Db, s: Summary, rev: Option<LikeId>, newId: MatchId)
    ensures var db' := Resolve(db, s, rev, newId).0;
            db'.blocks == db.blocks && db'.owners == db.owners && db'.cutoff == db.cutoff && db'.now == db.now
            && db'.users == db.users && db'.ledgers == db.ledgers && db'.values == db.values
  {
  }

  lemma {:induction false} ResolveAllRespectsBlocks(db: Db, todo: seq<Summary>, revs: seq<Option<LikeId>>, ids: seq<MatchId>, q: Pair)
    requires |todo| == |revs| == |ids|
    requires IsActive(ResolveAll(db, todo, revs, ids), q) && !IsActive(db, q)
    ensures !IsBlocked(db, q.one, q.two)
    decreases |todo|
  {
    if todo != [] {
      var db1 := Resolve(db, todo[0], revs[0], ids[0]).0;
      ResolveKeepsBlocks(db, todo[0], revs[0], ids[0]);
      if IsActive(db1, q) {
        ResolveActivates(db, todo[0], revs[0], ids[0], q);
      } else {
        ResolveAllRespectsBlocks(db1, todo[1..], revs[1..], ids[1..], q);
        assert forall k :: k in db.blocks && BlockStands(db.blocks[k], q.one, q.two) ==> BlockStands(db1.blocks[k], q.one, q.two);
      }
    }
  }

  lemma ChargeKeepsMatches(db: Db, q: LikeRequest, i: IdentityId)
    ensures Charge(db, q, i).0.matches == db.matches && Charge(db, q, i).0.blocks == db.blocks
  {
  }

  lemma StoreLikeKeepsMatches(db: Db, q: LikeRequest)
    ensures StoreLike(db, q).0.matches == db.matches && StoreLike(db, q).0.blocks == db.blocks
  {
    var (db1, located) := LocateIdentity(db, q.target, q.newIdentity);
    assert db1.matches == db.matches && db1.blocks == db.blocks;
    if located.Some? {
      ChargeKeepsMatches(db1, q, located.value);
    }
  }

  /** No step turns a match ACTIVE while a block stands in either direction. */
  lemma StepRespectsBlocks(db: Db, step: Step, p: Pair)
    requires Inv(db) && Enabled(db, step)
    requires IsActive(Next(db, step), p) && !IsActive(db, p)
    ensures !IsBlocked(db, p.one, p.two)
  {
    match step
    case Create(q) =>
      var (stored, result) := StoreLike(db, q);
      StoreLikeKeepsMatches(db, q);
      if result.Created? && result.like in stored.likes {
        ResolveActivates(stored, SummaryOf(stored, result.like), q.rev, q.newMatch, p);
        assert forall k :: k in db.blocks && BlockStands(db.blocks[k], p.one, p.two) ==> BlockStands(stored.blocks[k], p.one, p.two);
      }
    case HandleClaimed(user, order, revs, ids) =>
      ResolveAllRespectsBlocks(db, Summaries(db, order), revs, ids, p);
    case _ =>
  }

  lemma CreateKeepsBlockRows(db: Db, q: LikeRequest)
    ensures CreateLike(db, q).0.blocks == db.blocks
  {
    var (stored, result) := StoreLike(db, q);
    StoreLikeKeepsMatches(db, q);
    if result.Created? && result.like in stored.likes {
      ResolveKeepsBlocks(stored, SummaryOf(stored, result.like), q.rev, q.newMatch);
    }
  }

  lemma StepKeepsBlockRows(db: Db, step: Step)
    requires BlocksOk(db) && Enabled(db, step)
    ensures BlocksOk(Next(db, step))
  {
    match step
    case Create(q) => CreateKeepsBlockRows(db, q);
    case HandleClaimed(user, order, revs, ids) => ResolveAllKeepsBlockRows(db, Summaries(db, order), revs, ids);
    case BlockOther(user, other, row, newId) => BlockUserStands(db, user, other, row, newId);
    case CloseAccount(user) => DeletionKeepsBlockRows(db, user);
    case _ =>
  }

  lemma DeletionKeepsBlockRows(db: Db, user: UserId)
    requires BlocksOk(db)
    ensures BlocksOk(DeleteAccount(db, user))
  {
  }

  lemma {:induction false} ResolveAllKeepsBlockRows(db: Db, todo: seq<Summary>, revs: seq<Option<LikeId>>, ids: seq<MatchId>)
    requires |todo| == |revs| == |ids|
    ensures ResolveAll(db, todo, revs, ids).blocks == db.blocks
    decreases |todo|
  {
    if todo != [] {
      ResolveKeepsBlocks(db, todo[0], revs[0], ids[0]);
      ResolveAllKeepsBlockRows(Resolve(db, todo[0], revs[0], ids[0]).0, todo[1..], revs[1..], ids[1..]);
    }
  }

  /** Over every run a blocker has at most one row per blocked user, and none on themselves. */
  lemma {:induction false} RunKeepsBlockRows(db: Db, steps: seq<Step>)
    requires BlocksOk(db) && IsRun(db, steps)
    ensures BlocksOk(After(db, steps))
    decreases |steps|
  {
    if steps != [] {
      StepKeepsBlockRows(db, steps[0]);
      RunKeepsBlockRows(Next(db, steps[0]), steps[1..]);
    }
  }

  /** The steps that end a block of `a` on `b`. */
  predicate EndsBlock(db: Db, step: Step, a: UserId, b: UserId) {
    match step
    case LiftBlock(user, k) => user == a && k in db.blocks && db.blocks[k].blocker == a && db.blocks[k].blocked == Some(b)
    case CloseAccount(user) => user in db.users && (user == a || user == b)
    case _ => false
  }

  lemma SparingStepKeepsBlocks(db: Db, step: Step)
    requires Enabled(db, step) && !step.BlockOther? && !step.LiftBlock? && !step.CloseAccount?
    ensures Next(db, step).blocks == db.blocks
  {
    match step
    case Create(q) => CreateKeepsBlockRows(db, q);
    case HandleClaimed(user, order, revs, ids) => ResolveAllKeepsBlockRows(db, Summaries(db, order), revs, ids);
    case _ =>
  }

  lemma PlacingBlocksExactly(db: Db, user: UserId, other: UserId, row: Option<BlockId>, newId: BlockId, a: UserId, b: UserId)
    requires BlockChoice(db, user, other, row) && newId !in db.blocks
    ensures HasBlocked(BlockUser(db, user, other, row, newId), a, b)
            <==> HasBlocked(db, a, b) || (a == user && b == other && CanBlock(db, a, b))
  {
    var db' := BlockUser(db, user, other, row, newId);
    if CanBlock(db, user, other) {
      var k := if row.Some? then row.value else newId;
      assert db'.blocks[k] == Block(user, Some(other), None);
      assert forall j :: j in db.blocks && j != k ==> j in db'.blocks && db'.blocks[j] == db.blocks[j];
    }
  }

  lemma LiftingUnblocksExactly(db: Db, user: UserId, k: BlockId, a: UserId, b: UserId)
    requires BlocksOk(db)
    ensures HasBlocked(Unblock(db, user, k), a, b) <==> HasBlocked(db, a, b) && !EndsBlock(db, LiftBlock(user, k), a, b)
  {
    var db' := Unblock(db, user, k);
    assert forall j :: j in db.blocks && j != k ==> j in db'.blocks && db'.blocks[j] == db.blocks[j];
  }

  lemma DeletionUnblocksExactly(db: Db, user: UserId, a: UserId, b: UserId)
    requires user in db.users
    ensures HasBlocked(DeleteAccount(db, user), a, b) <==> HasBlocked(db, a, b) && user != a && user != b
  {
    var db' := DeleteAccount(db, user);
    assert forall k :: k in db'.blocks ==> k in db.blocks && db'.blocks[k].blocker == db.blocks[k].blocker;
    if user != a && user != b && HasBlocked(db, a, b) {
      var k :| k in db.blocks && db.blocks[k].blocker == a && db.blocks[k].blocked == Some(b) && db.blocks[k].deletedAt.None?;
      assert db'.blocks[k] == db.blocks[k];
    }
  }

  /** What makes and what ends a block: after any step `a` blocks `b` exactly if the step
      places that block, or it stood before and the step does not end it. */
  lemma StepBlocksExactly(db: Db, step: Step, a: UserId, b: UserId)
    requires BlocksOk(db) && Enabled(db, step)
    ensures HasBlocked(Next(db, step), a, b)
            <==> (step.BlockOther? && step.user == a && step.other == b && CanBlock(db, a, b))
                 || (HasBlocked(db, a, b) && !EndsBlock(db, step, a, b))
    ensures IsBlocked(db, a, b) <==> HasBlocked(db, a, b) || HasBlocked(db, b, a)
  {
    BlockedEitherWay(db, a, b);
    match step
    case BlockOther(user, other, row, newId) => PlacingBlocksExactly(db, user, other, row, newId, a, b);
    case LiftBlock(user, k) => LiftingUnblocksExactly(db, user, k, a, b);
    case CloseAccount(user) =>
      if user in db.users {
        DeletionUnblocksExactly(db, user, a, b);
      }
    case _ => SparingStepKeepsBlocks(db, step);
  }

  // ---- Account deletion ----

  /** After deletion no match names the user and nothing live points at their former
      identities; every match of other people is still there, and the ACTIVE ones still
      hold two MATCHED likes, although counterparts of dissolved matches are voided too. */
  lemma DeletionLeavesOthersMatched(db: Db, user: UserId)
    requires Inv(db) && user in db.users
    ensures var db' := DeleteAccount(db, user);
            && Inv(db')
            && (forall p :: p in db'.matches <==> p in db.matches && !Involves(p, user))
            && (forall id :: id in db'.likes ==> db'.likes[id].sender != user)
            && (forall id :: id in db'.likes && Owner(db, db'.likes[id].target) == Some(user) ==>
                  !db'.likes[id].status.Pending? && !db'.likes[id].status.Matched? && Owner(db', db'.likes[id].target).None?)
            && (forall p :: IsActive(db', p) ==>
                  && db'.matches[p] == db.matches[p]
                  && db'.matches[p].likeOne in db'.likes && db'.likes[db'.matches[p].likeOne].status.Matched?
                  && db'.matches[p].likeTwo in db'.likes && db'.likes[db'.matches[p].likeTwo].status.Matched?)
            && (forall x :: !IsBlocked(db', x, user) && !IsBlocked(db', user, x))
  {
    var db' := DeleteAccount(db, user);
    DeleteAccountKeepsInv(db, user);
    forall id | id in db'.likes && Owner(db, db'.likes[id].target) == Some(user)
      ensures !db'.likes[id].status.Matched?
    {
      if db.likes[id].status.Matched? {
        var p := Sorted(db.likes[id].sender, user);
        assert NamedBy(db, p, id);
        assert MatchOk(db, p, db.matches[p]);
        assert IsCounterpart(db, user, id);
      }
    }
    forall p | IsActive(db', p) ensures MatchOk(db', p, db'.matches[p]) {
    }
  }

  // ---- One debit per like ----

  ghost predicate Solvent(db: Db, user: UserId) {
    CreditLedger.Spent(RowsOf(db.ledgers, user)) <= CreditLedger.Granted(RowsOf(db.ledgers, user))
  }

  function Made(db: Db, step: Step, user: UserId): nat {
    if step.Create? && step.request.user == user && CreateLike(db, step.request).1.Created? then 1 else 0
  }

  ghost function LikesMade(db: Db, steps: seq<Step>, user: UserId): nat
    requires IsRun(db, steps)
    decreases |steps|
  {
    if steps == [] then 0 else Made(db, steps[0], user) + LikesMade(Next(db, steps[0]), steps[1..], user)
  }

  lemma TransactionCharges(db: Db, q: LikeRequest, i: IdentityId, user: UserId)
    ensures var (stored, result) := Charge(db, q, i);
            && (!(result.Created? && q.user == user) ==> RowsOf(stored.ledgers, user) == RowsOf(db.ledgers, user))
            && (result.Created? && q.user == user ==>
                  CreditLedger.Consume(RowsOf(db.ledgers, user), CREDITS_PER_LIKE, Some(result.like), db.now) == Some(RowsOf(stored.ledgers, user)))
  {
  }

  lemma StoreLikeCharges(db: Db, q: LikeRequest, user: UserId)
    ensures var (stored, result) := StoreLike(db, q);
            && (!(result.Created? && q.user == user) ==> RowsOf(stored.ledgers, user) == RowsOf(db.ledgers, user))
            && (result.Created? && q.user == user ==>
                  CreditLedger.Consume(RowsOf(db.ledgers, user), CREDITS_PER_LIKE, Some(result.like), db.now) == Some(RowsOf(stored.ledgers, user)))
  {
    var (db1, located) := LocateIdentity(db, q.target, q.newIdentity);
    if located.Some? {
      TransactionCharges(db1, q, located.value, user);
    }
  }

  lemma CreateLikeCharges(db: Db, q: LikeRequest)
    ensures CreateLike(db, q).0.ledgers == StoreLike(db, q).0.ledgers
    ensures CreateLike(db, q).1.Created? <==> StoreLike(db, q).1.Created?
  {
    var (stored, result) := StoreLike(db, q);
    if result.Created? && result.like in stored.likes {
      ResolveKeepsBlocks(stored, SummaryOf(stored, result.like), q.rev, q.newMatch);
    }
  }

  lemma {:induction false} ResolveAllKeepsLedgers(db: Db, todo: seq<Summary>, revs: seq<Option<LikeId>>, ids: seq<MatchId>)
    requires |todo| == |revs| == |ids|
    ensures ResolveAll(db, todo, revs, ids).ledgers == db.ledgers
    decreases |todo|
  {
    if todo != [] {
      ResolveKeepsBlocks(db, todo[0], revs[0], ids[0]);
      ResolveAllKeepsLedgers(Resolve(db, todo[0], revs[0], ids[0]).0, todo[1..], revs[1..], ids[1..]);
    }
  }

  lemma GrantChargesNobody(rows: seq<CreditLedger.Row>, amount: nat, source: CreditLedger.Source, ref: Option<nat>,
                           expiresAt: Option<int>, now: int)
    ensures var rows' := CreditLedger.Grant(rows, amount, source, ref, expiresAt, now);
            CreditLedger.Spent(rows') == CreditLedger.Spent(rows) && CreditLedger.Granted(rows') >= CreditLedger.Granted(rows)
  {
    var credit := [CreditLedger.Row(|rows|, CreditLedger.Credit, amount, source, ref, expiresAt, now)];
    CreditLedger.SumIfAppend(rows, credit, CreditLedger.IsSpend);
    CreditLedger.SumIfAppend(rows, credit, CreditLedger.IsCredit);
  }

  lemma CreateCharges(db: Db, q: LikeRequest, user: UserId)
    requires Solvent(db, user)
    ensures Solvent(CreateLike(db, q).0, user)
    ensures CreditLedger.Spent(RowsOf(CreateLike(db, q).0.ledgers, user))
         == CreditLedger.Spent(RowsOf(db.ledgers, user)) + Made(db, Create(q), user) * CREDITS_PER_LIKE
  {
    var rows := RowsOf(db.ledgers, user);
    StoreLikeCharges(db, q, user);
    CreateLikeCharges(db, q);
    if StoreLike(db, q).1.Created? && q.user == user {
      CreditViews.ConsumedSums(rows, CREDITS_PER_LIKE, Some(StoreLike(db, q).1.like), db.now);
      CreditViews.BalanceClosed(rows, db.now);
    }
  }

  lemma StepCharges(db: Db, step: Step, user: UserId)
    requires Enabled(db, step) && Solvent(db, user) && step != CloseAccount(user)
    ensures Solvent(Next(db, step), user)
    ensures CreditLedger.Spent(RowsOf(Next(db, step).ledgers, user))
         == CreditLedger.Spent(RowsOf(db.ledgers, user)) + Made(db, step, user) * CREDITS_PER_LIKE
  {
    var rows := RowsOf(db.ledgers, user);
    match step
    case GrantTo(u, amount, source, ref, expiresAt) => GrantChargesNobody(rows, amount, source, ref, expiresAt, db.now);
    case ExpireCredits(batch, asOf) =>
      ExpiryFanOut.DeliveryIsPointwise(db.ledgers, batch, asOf);
      CreditViews.ExpireSums(rows, asOf);
    case Create(q) => CreateCharges(db, q, user);
    case HandleClaimed(u, order, revs, ids) => ResolveAllKeepsLedgers(db, Summaries(db, order), revs, ids);
    case _ =>
  }

  /** Each successful like writes exactly one debit, so the likes a user has paid for
      never exceed the credits they were granted. */
  lemma {:induction false} LikesArePaidFor(db: Db, steps: seq<Step>, user: UserId)
    requires IsRun(db, steps) && Solvent(db, user)
    requires CloseAccount(user) !in steps
    ensures var rows, rows' := RowsOf(db.ledgers, user), RowsOf(After(db, steps).ledgers, user);
            && CreditLedger.Spent(rows') == CreditLedger.Spent(rows) + LikesMade(db, steps, user) * CREDITS_PER_LIKE
            && CreditLedger.Spent(rows') <= CreditLedger.Granted(rows')
    decreases |steps|
  {
    if steps != [] {
      assert steps[0] in steps;
      StepCharges(db, steps[0], user);
      LikesArePaidFor(Next(db, steps[0]), steps[1..], user);
    }
  }

  // ---- An expired like that still refuses a new one ----

  lemma RunCons(db: Db, step: Step, rest: seq<Step>)
    requires Enabled(db, step) && IsRun(Next(db, step), rest)
    ensures IsRun(db, [step] + rest) && After(db, [step] + rest) == After(Next(db, step), rest)
  {
    assert ([step] + rest)[1..] == rest;
  }

  /** The first like of user 1, on a value nobody has, for ten units of time. */
  function FirstLike(): LikeRequest {
    LikeRequest(1, ByValue(7), Open, Some(10), 0, 0, 0, None, None)
  }

  /** A user of time 0 with one credit. */
  function Funded(): Db {
    EmptyDb(0).(users := {1}, ledgers := map[1 := CreditLedger.Grant([], 1, CreditLedger.Bonus, None, None, 0)])
  }

  lemma FirstLikeIsStored()
    ensures var db, q := Funded(), FirstLike();
            && RequestOk(db, q) && RequestResolves(db, q)
            && CreateLike(db, q).0 == db.(owners := map[0 := None], values := map[7 := 0], ledgers := CreateLike(db, q).0.ledgers,
                                          likes := map[0 := Like(1, 0, Open, Pending, Some(10), None)])
  {
    var db, q := Funded(), FirstLike();
    var rows := RowsOf(db.ledgers, 1);
    CreditRuns.GrantSums([], 1, CreditLedger.Bonus, None, None, 0, 0);
    CreditViews.LapsedDebits([], 0);
    CreditViews.BalanceClosed(rows, 0);
    assert CreditLedger.Balance(rows, 0) == 1;
    var (db1, located) := LocateIdentity(db, q.target, q.newIdentity);
    assert db1 == db.(owners := map[0 := None], values := map[7 := 0]) && located == Some(0);
    assert StoreLike(db, q) == Charge(db1, q, 0);
    assert Charge(db1, q, 0).1 == Created(0, None);
  }

  /** That like is made, and the clock moves past its expiry with no restart. */
  function StaleDb(): Db {
    CreateLike(Funded(), FirstLike()).0.(now := 20)
  }

  lemma StaleDbIsReached()
    ensures exists steps :: IsRun(EmptyDb(0), steps) && After(EmptyDb(0), steps) == StaleDb()
  {
    var register, grant := Register(1), GrantTo(1, 1, CreditLedger.Bonus, None, None);
    var create, wait := Create(FirstLike()), Wait(20, false);
    var db1 := Next(EmptyDb(0), register);
    assert Next(db1, grant) == Funded();
    FirstLikeIsStored();
    var db3 := Next(Funded(), create);
    assert Next(db3, wait) == StaleDb();
    RunCons(db3, wait, []);
    RunCons(Funded(), create, [wait] + []);
    RunCons(db1, grant, [create] + ([wait] + []));
    RunCons(EmptyDb(0), register, [grant] + ([create] + ([wait] + [])));
  }

  /** The states of `StaleFilterRefuses` are reachable: register, get a credit, like with an
      expiry, and let the expiry pass without a restart. */
  lemma StaleRefusalIsReachable()
    ensures exists steps :: IsRun(EmptyDb(0), steps) && After(EmptyDb(0), steps) == StaleDb()
    ensures Refusal(StaleDb(), 1, 0) == Some(AlreadyLiked)
    ensures 0 in StaleDb().likes && SentTo(StaleDb().likes[0], 1, 0) && IsReusable(StaleDb().likes[0], StaleDb().now)
  {
    StaleDbIsReached();
    FirstLikeIsStored();
    var db := StaleDb();
    assert db.likes == map[0 := Like(1, 0, Open, Pending, Some(10), None)] && db.cutoff == 0 && db.now == 20;
    assert SentTo(db.likes[0], 1, 0) && BlocksReliking(db.likes[0], db.cutoff);
  }
}
