/** The tables behind likes, matches, identities and blocks, and what each service call
    does to them, one call at a time.

    Rows are values in maps. A match row is kept under its sorted pair of users, which is
    the unique key the database enforces; the id inside the row tells a reactivated row
    from a new one. Ids that the database would generate are parameters. */
module LikeMatch {
  import opened Prelude
  import CreditLedger
  import opened CreditsService

  type IdentityId = nat
  type PublicValue = nat
  type LikeId = nat
  type MatchId = nat
  type BlockId = nat

  datatype Intent = Relationship | Casual | Open

  datatype LikeStatus = Pending | Matched | Voided | Withdrawn | Deleted

  datatype MatchStatus = Active | Unmatched | Blocked

  datatype Like = Like(sender: UserId, target: IdentityId, intent: Intent, status: LikeStatus,
                       expiresAt: Option<int>, deletedAt: Option<int>)

  datatype Match = Match(id: MatchId, likeOne: LikeId, likeTwo: LikeId, intentOne: Intent, intentTwo: Intent,
                         status: MatchStatus, deletedAt: Option<int>)

  datatype Pair = Pair(one: UserId, two: UserId)

  datatype Block = Block(blocker: UserId, blocked: Option<UserId>, deletedAt: Option<int>)

  /** `cutoff` is the instant at which the like filter was imported; `now` is the clock. */
  datatype Db = Db(users: set<UserId>, owners: map<IdentityId, Option<UserId>>, values: map<PublicValue, IdentityId>,
                   likes: map<LikeId, Like>, matches: map<Pair, Match>, blocks: map<BlockId, Block>,
                   ledgers: Ledgers, now: int, cutoff: int)

  const CREDITS_PER_LIKE: nat := 1

  // ---- Reading the tables ----

  function Sorted(a: UserId, b: UserId): Pair {
    if a <= b then Pair(a, b) else Pair(b, a)
  }

  function Owner(db: Db, i: IdentityId): Option<UserId> {
    if i in db.owners then db.owners[i] else None
  }

  /** The like filter: permanent, or not expired when the filter was imported. */
  predicate PassesFilter(l: Like, cutoff: int) {
    l.expiresAt.None? || l.expiresAt.value > cutoff
  }

  predicate Compatible(a: Intent, b: Intent): (ok: bool)
    ensures ok <==> a == b || a.Open? || b.Open?
  {
    if a.Open? || b.Open? then true
    else if a.Relationship? && b.Relationship? then true
    else if a.Casual? && b.Casual? then true
    else false
  }

  predicate BlockStands(b: Block, x: UserId, y: UserId) {
    && b.deletedAt.None?
    && ((b.blocker == x && b.blocked == Some(y)) || (b.blocker == y && b.blocked == Some(x)))
  }

  predicate IsBlocked(db: Db, x: UserId, y: UserId) {
    exists k :: k in db.blocks && BlockStands(db.blocks[k], x, y)
  }

  /** `x` has placed a block on `y` that was not lifted. */
  predicate HasBlocked(db: Db, x: UserId, y: UserId) {
    exists k :: k in db.blocks && db.blocks[k].blocker == x && db.blocks[k].blocked == Some(y) && db.blocks[k].deletedAt.None?
  }

  predicate IsActive(db: Db, p: Pair) {
    p in db.matches && db.matches[p].status.Active?
  }

  // ---- The resolver ----

  /** What the resolver is told about the like that triggered it. */
  datatype Summary = Summary(id: LikeId, sender: UserId, target: IdentityId, intent: Intent, owner: Option<UserId>)

  function SummaryOf(db: Db, id: LikeId): Summary
    requires id in db.likes
  {
    var l := db.likes[id];
    Summary(id, l.sender, l.target, l.intent, Owner(db, l.target))
  }

  /** A like from `b` towards `a` that can complete a match. */
  predicate IsReverse(db: Db, a: UserId, b: UserId, id: LikeId) {
    && id in db.likes
    && db.likes[id].sender == b
    && Owner(db, db.likes[id].target) == Some(a)
    && (db.likes[id].status.Pending? || db.likes[id].status.Voided?)
    && db.likes[id].deletedAt.None?
    && PassesFilter(db.likes[id], db.cutoff)
  }

  /** The lookup may return any such like, and returns none only if there is none. */
  ghost predicate ReverseChoice(db: Db, a: UserId, b: UserId, rev: Option<LikeId>) {
    match rev
    case Some(r) => IsReverse(db, a, b, r)
    case None => forall id :: !IsReverse(db, a, b, id)
  }

  predicate Eligible(db: Db, a: UserId, b: UserId, intentA: Intent, intentB: Intent) {
    && Compatible(intentA, intentB)
    && !IsBlocked(db, a, b)
    && !IsActive(db, Sorted(a, b))
  }

  datatype Commit = Committed(db: Db, match_: Match) | Conflict | Failed

  /** Another match row already uses one of the two likes in the same column. */
  predicate LikeTaken(db: Db, p: Pair, likeOne: LikeId, likeTwo: LikeId) {
    exists q :: q in db.matches && q != p && (db.matches[q].likeOne == likeOne || db.matches[q].likeTwo == likeTwo)
  }

  /** The match transaction. `existing` is the row id read before it: with one the row is
      updated, without one a row is inserted. Violating a unique key is a Conflict. */
  function ExecuteMatch(db: Db, likeOne: LikeId, likeTwo: LikeId, intentOne: Intent, intentTwo: Intent,
                        p: Pair, existing: Option<MatchId>, newId: MatchId): Commit {
    if likeOne !in db.likes || likeTwo !in db.likes then Failed
    else if existing.Some? && (p !in db.matches || db.matches[p].id != existing.value) then Failed
    else if (existing.None? && p in db.matches) || LikeTaken(db, p, likeOne, likeTwo) then Conflict
    else
      var id := if existing.Some? then existing.value else newId;
      var row := Match(id, likeOne, likeTwo, intentOne, intentTwo, Active, None);
      var likes1 := db.likes[likeOne := db.likes[likeOne].(status := Matched)];
      var likes2 := likes1[likeTwo := likes1[likeTwo].(status := Matched)];
      Committed(db.(matches := db.matches[p := row], likes := likes2), row)
  }

  function ExistingMatch(db: Db, p: Pair): Option<MatchId> {
    if p in db.matches then Some(db.matches[p].id) else None
  }

  /** Roles are assigned by sorting the two user ids. */
  function ExecuteCanonical(db: Db, s: Summary, owner: UserId, rev: LikeId, revIntent: Intent,
                            existing: Option<MatchId>, newId: MatchId): Commit {
    var p := Sorted(s.sender, owner);
    var senderIsOne := p.one == s.sender;
    var ownerIsTwo := p.two == owner;
    ExecuteMatch(db,
                 if senderIsOne then s.id else rev, if ownerIsTwo then rev else s.id,
                 if senderIsOne then s.intent else revIntent, if ownerIsTwo then revIntent else s.intent,
                 p, existing, newId)
  }

  /** Resolve one like, given the reverse like the lookup returned. A unique-key conflict
      yields the row that caused it. */
  function Resolve(db: Db, s: Summary, rev: Option<LikeId>, newId: MatchId): (Db, Option<MatchId>) {
    if s.owner.None? then (db, None)
    else if rev.None? || rev.value !in db.likes then (db, None)
    else
      var owner := s.owner.value;
      var revIntent := db.likes[rev.value].intent;
      if !Eligible(db, s.sender, owner, s.intent, revIntent) then (db, None)
      else
        var p := Sorted(s.sender, owner);
        match ExecuteCanonical(db, s, owner, rev.value, revIntent, ExistingMatch(db, p), newId)
        case Committed(db', row) => (db', Some(row.id))
        case Conflict => (db, ExistingMatch(db, p))
        case Failed => (db, None)
  }

  // ---- Likes ----

  datatype Target = ById(id: IdentityId) | ByValue(value: PublicValue) | Nothing

  datatype CreateResult =
    | Created(like: LikeId, matched: Option<MatchId>)
    | InsufficientCredits
    | MissingTargetIdentity
    | IdentityNotFound
    | SelfLike
    | AlreadyLiked
    | AlreadyMatched
    | DuplicateRow

  /** Find or create the identity a like is aimed at. */
  function LocateIdentity(db: Db, target: Target, newIdentity: IdentityId): (Db, Option<IdentityId>) {
    match target
    case Nothing => (db, None)
    case ById(i) => (db, Some(i))
    case ByValue(v) =>
      if v in db.values then (db, Some(db.values[v]))
      else (db.(owners := db.owners[newIdentity := None], values := db.values[v := newIdentity]), Some(newIdentity))
  }

  predicate SentTo(l: Like, user: UserId, i: IdentityId) {
    l.sender == user && l.target == i
  }

  predicate BlocksReliking(l: Like, cutoff: int) {
    l.deletedAt.None? && l.status.Pending? && PassesFilter(l, cutoff)
  }

  predicate IsReusable(l: Like, now: int) {
    || l.status.Withdrawn? || l.status.Voided? || l.status.Deleted?
    || l.deletedAt.Some?
    || (l.status.Pending? && l.expiresAt.Some? && l.expiresAt.value <= now)
  }

  /** The lookup of a row to re-use may return any that fits. */
  ghost predicate ReuseChoice(db: Db, user: UserId, i: IdentityId, reuse: Option<LikeId>) {
    match reuse
    case Some(r) => r in db.likes && SentTo(db.likes[r], user, i) && IsReusable(db.likes[r], db.now)
    case None => forall id :: id in db.likes && SentTo(db.likes[id], user, i) ==> !IsReusable(db.likes[id], db.now)
  }

  function Persist(db: Db, user: UserId, i: IdentityId, intent: Intent, expiresAt: Option<int>,
                   reuse: Option<LikeId>, newLike: LikeId): Db {
    var id := if reuse.Some? then reuse.value else newLike;
    db.(likes := db.likes[id := Like(user, i, intent, Pending, expiresAt, None)])
  }

  /** What the caller of `create` passes, and what the database answers to its lookups. */
  datatype LikeRequest = LikeRequest(user: UserId, target: Target, intent: Intent, expiresAt: Option<int>,
                                     newIdentity: IdentityId, newLike: LikeId, newMatch: MatchId,
                                     reuse: Option<LikeId>, rev: Option<LikeId>)

  /** The checks on the target, in the order of the code: the first one that fails. */
  function Refusal(db: Db, user: UserId, i: IdentityId): Option<CreateResult> {
    if i !in db.owners then Some(IdentityNotFound)
    else if db.owners[i] == Some(user) then Some(SelfLike)
    else if exists id :: id in db.likes && SentTo(db.likes[id], user, i) && BlocksReliking(db.likes[id], db.cutoff)
    then Some(AlreadyLiked)
    else if db.owners[i].Some? && IsActive(db, Sorted(user, db.owners[i].value)) then Some(AlreadyMatched)
    else None
  }

  /** The transaction of `create`: the row, under its unique key, and its debit. */
  function Charge(db: Db, q: LikeRequest, i: IdentityId): (Db, CreateResult) {
    if q.reuse.None? && exists id :: id in db.likes && SentTo(db.likes[id], q.user, i) then (db, DuplicateRow)
    else
      var like := if q.reuse.Some? then q.reuse.value else q.newLike;
      match CreditLedger.Consume(RowsOf(db.ledgers, q.user), CREDITS_PER_LIKE, Some(like), db.now)
      case None => (db, CreateResult.InsufficientCredits)
      case Some(paid) =>
        (Persist(db, q.user, i, q.intent, q.expiresAt, q.reuse, q.newLike).(ledgers := db.ledgers[q.user := paid]), Created(like, None))
  }

  /** Everything up to and including that transaction. */
  function StoreLike(db: Db, q: LikeRequest): (Db, CreateResult) {
    if CreditLedger.Balance(RowsOf(db.ledgers, q.user), db.now) < CREDITS_PER_LIKE then (db, CreateResult.InsufficientCredits)
    else
      var (db1, located) := LocateIdentity(db, q.target, q.newIdentity);
      if located.None? then (db1, MissingTargetIdentity)
      else
        match Refusal(db1, q.user, located.value)
        case Some(refusal) => (db1, refusal)
        case None => Charge(db1, q, located.value)
  }

  function CreateLike(db: Db, q: LikeRequest): (Db, CreateResult) {
    var (stored, result) := StoreLike(db, q);
    match result
    case Created(like, _) =>
      if like !in stored.likes then (stored, result)
      else
        var (resolved, matched) := Resolve(stored, SummaryOf(stored, like), q.rev, q.newMatch);
        (resolved, Created(like, matched))
    case _ => (stored, result)
  }

  predicate CanDelete(db: Db, user: UserId, id: LikeId) {
    id in db.likes && db.likes[id].sender == user && db.likes[id].deletedAt.None? && db.likes[id].status.Pending?
  }

  function DeleteLike(db: Db, user: UserId, id: LikeId): Db {
    if CanDelete(db, user, id)
    then db.(likes := db.likes[id := db.likes[id].(deletedAt := Some(db.now), status := Deleted)])
    else db
  }

  // ---- Matches ----

  predicate CanUnmatch(db: Db, user: UserId, p: Pair) {
    p in db.matches && (p.one == user || p.two == user) && db.matches[p].status.Active? && db.matches[p].deletedAt.None?
    && db.matches[p].likeOne in db.likes && db.matches[p].likeTwo in db.likes
  }

  /** The initiator's like is WITHDRAWN, the other party's VOIDED. */
  function Unmatch(db: Db, user: UserId, p: Pair): Db {
    if !CanUnmatch(db, user, p) then db
    else
      var m := db.matches[p];
      var own := if user == p.one then m.likeOne else m.likeTwo;
      var other := if user == p.one then m.likeTwo else m.likeOne;
      var likes1 := db.likes[own := db.likes[own].(status := Withdrawn)];
      db.(matches := db.matches[p := m.(status := Unmatched, deletedAt := Some(db.now))],
          likes := likes1[other := likes1[other].(status := Voided)])
  }

  // ---- Identities ----

  predicate CanClaim(db: Db, user: UserId, v: PublicValue) {
    v in db.values ==> Owner(db, db.values[v]) == None || Owner(db, db.values[v]) == Some(user)
  }

  function Claim(db: Db, user: UserId, v: PublicValue, newIdentity: IdentityId): Db {
    if !CanClaim(db, user, v) then db
    else if v in db.values then db.(owners := db.owners[db.values[v] := Some(user)])
    else db.(owners := db.owners[newIdentity := Some(user)], values := db.values[v := newIdentity])
  }

  /** A like the claim handler picks up. */
  predicate IsActionable(db: Db, user: UserId, id: LikeId) {
    && id in db.likes
    && Owner(db, db.likes[id].target) == Some(user)
    && BlocksReliking(db.likes[id], db.cutoff)
  }

  /** Resolve a list of summaries one after the other. */
  function ResolveAll(db: Db, todo: seq<Summary>, revs: seq<Option<LikeId>>, ids: seq<MatchId>): Db
    requires |todo| == |revs| == |ids|
    decreases |todo|
  {
    if todo == [] then db
    else ResolveAll(Resolve(db, todo[0], revs[0], ids[0]).0, todo[1..], revs[1..], ids[1..])
  }

  /** Each lookup of the loop returns a valid choice for the tables as they are then. */
  ghost predicate LoopChoices(db: Db, todo: seq<Summary>, revs: seq<Option<LikeId>>, ids: seq<MatchId>)
    requires |todo| == |revs| == |ids|
    decreases |todo|
  {
    todo == [] ||
    (&& (todo[0].owner.Some? ==> ReverseChoice(db, todo[0].sender, todo[0].owner.value, revs[0]))
     && LoopChoices(Resolve(db, todo[0], revs[0], ids[0]).0, todo[1..], revs[1..], ids[1..]))
  }

  // ---- Blocks ----

  predicate CanBlock(db: Db, blocker: UserId, blocked: UserId) {
    && blocker != blocked
    && blocked in db.users
    && !exists k :: k in db.blocks && db.blocks[k].blocker == blocker && db.blocks[k].blocked == Some(blocked)
                    && db.blocks[k].deletedAt.None?
  }

  /** `row` is the existing lifted block of the pair, if there is one. */
  ghost predicate BlockChoice(db: Db, blocker: UserId, blocked: UserId, row: Option<BlockId>) {
    match row
    case Some(k) => k in db.blocks && db.blocks[k].blocker == blocker && db.blocks[k].blocked == Some(blocked)
    case None => forall k :: k in db.blocks ==> !(db.blocks[k].blocker == blocker && db.blocks[k].blocked == Some(blocked))
  }

  function BlockUser(db: Db, blocker: UserId, blocked: UserId, row: Option<BlockId>, newId: BlockId): Db {
    if !CanBlock(db, blocker, blocked) then db
    else db.(blocks := db.blocks[(if row.Some? then row.value else newId) := Block(blocker, Some(blocked), None)])
  }

  predicate CanUnblock(db: Db, user: UserId, k: BlockId) {
    k in db.blocks && db.blocks[k].blocker == user && db.blocks[k].deletedAt.None?
  }

  function Unblock(db: Db, user: UserId, k: BlockId): Db {
    if CanUnblock(db, user, k) then db.(blocks := db.blocks[k := db.blocks[k].(deletedAt := Some(db.now))]) else db
  }

  // ---- Account deletion ----

  predicate Involves(p: Pair, user: UserId) {
    p.one == user || p.two == user
  }

  /** The other party's like in some match of the user, active or not. */
  predicate IsCounterpart(db: Db, user: UserId, id: LikeId) {
    exists p :: p in db.matches && Involves(p, user)
                && id == (if p.one == user then db.matches[p].likeTwo else db.matches[p].likeOne)
  }

  predicate VoidedByDeletion(db: Db, user: UserId, id: LikeId) {
    id in db.likes && (IsCounterpart(db, user, id) || (Owner(db, db.likes[id].target) == Some(user) && db.likes[id].status.Pending?))
  }

  /** Every table after the account is gone: its matches and its own rows are removed, the
      likes that pointed at it are voided, its identities and the blocks on it let go. */
  function DeleteAccount(db: Db, user: UserId): Db {
    if user !in db.users then db
    else
      db.(users := db.users - {user},
          owners := map i | i in db.owners :: if db.owners[i] == Some(user) then None else db.owners[i],
          likes := map id | id in db.likes && db.likes[id].sender != user ::
                     if VoidedByDeletion(db, user, id) then db.likes[id].(status := Voided) else db.likes[id],
          matches := map p | p in db.matches && !Involves(p, user) :: db.matches[p],
          blocks := map k | k in db.blocks && db.blocks[k].blocker != user ::
                      if db.blocks[k].blocked == Some(user) then db.blocks[k].(blocked := None) else db.blocks[k],
          ledgers := db.ledgers - {user})
  }
}
