/** Two users like each other at the same time. Each caller stores its like, looks up the
    reverse like, checks eligibility and runs the match transaction; losing the race for
    the unique pair key is answered by reading the winner's row. Any interleaving of these
    steps ends with exactly one ACTIVE match. */
module ConcurrentLikes {
  import opened Prelude
  import opened CreditsService
  import opened LikeMatch
  import opened LikeMatchInvariant

  /** One caller: who likes whom, and the ids the database will hand out. */
  datatype Caller = Caller(user: UserId, target: IdentityId, other: UserId, intent: Intent, expiresAt: Option<int>,
                           like: LikeId, newMatch: MatchId)

  datatype Phase =
    | Start
    | Stored
    | Found(rev: LikeId, revIntent: Intent)
    | Checked(rev: LikeId, revIntent: Intent, existing: Option<MatchId>)
    | Lost
    | Finished(result: Option<MatchId>)

  function PairOf(c: Caller): Pair {
    Sorted(c.user, c.other)
  }

  function SummaryFor(c: Caller): Summary {
    Summary(c.like, c.user, c.target, c.intent, Some(c.other))
  }

  /** One step of one caller; `pick` is what its lookup returns when it is about to look. */
  function Advance(db: Db, c: Caller, at: Phase, pick: Option<LikeId>): (Db, Phase) {
    match at
    case Start => (Persist(db, c.user, c.target, c.intent, c.expiresAt, None, c.like), Stored)
    case Stored =>
      if pick.Some? && pick.value in db.likes then (db, Found(pick.value, db.likes[pick.value].intent))
      else (db, Finished(None))
    case Found(rev, revIntent) =>
      if Eligible(db, c.user, c.other, c.intent, revIntent) then (db, Checked(rev, revIntent, ExistingMatch(db, PairOf(c))))
      else (db, Finished(None))
    case Checked(rev, revIntent, existing) =>
      (match ExecuteCanonical(db, SummaryFor(c), c.other, rev, revIntent, existing, c.newMatch)
       case Committed(db', row) => (db', Finished(Some(row.id)))
       case Conflict => (db, Lost)
       case Failed => (db, Finished(None)))
    case Lost => (db, Finished(ExistingMatch(db, PairOf(c))))
    case Finished(_) => (db, at)
  }

  ghost predicate PickOk(db: Db, c: Caller, at: Phase, pick: Option<LikeId>) {
    at.Stored? ==> ReverseChoice(db, c.user, c.other, pick)
  }

  /** Steps a caller may still take. */
  function StepsLeft(at: Phase): nat {
    match at
    case Start => 5
    case Stored => 4
    case Found(_, _) => 3
    case Checked(_, _, _) => 2
    case Lost => 1
    case Finished(_) => 0
  }

  datatype World = World(db: Db, a: Phase, b: Phase)

  /** Whose turn it is, and what a lookup made in that turn returns. */
  datatype Turn = Turn(first: bool, pick: Option<LikeId>)

  function Play(w: World, a: Caller, b: Caller, t: Turn): World {
    if t.first then
      var (db, at) := Advance(w.db, a, w.a, t.pick);
      World(db, at, w.b)
    else
      var (db, at) := Advance(w.db, b, w.b, t.pick);
      World(db, w.a, at)
  }

  ghost predicate TurnOk(w: World, a: Caller, b: Caller, t: Turn) {
    if t.first then PickOk(w.db, a, w.a, t.pick) else PickOk(w.db, b, w.b, t.pick)
  }

  ghost predicate IsSchedule(w: World, a: Caller, b: Caller, turns: seq<Turn>)
    decreases |turns|
  {
    turns == [] || (TurnOk(w, a, b, turns[0]) && IsSchedule(Play(w, a, b, turns[0]), a, b, turns[1..]))
  }

  function PlayAll(w: World, a: Caller, b: Caller, turns: seq<Turn>): World
    decreases |turns|
  {
    if turns == [] then w else PlayAll(Play(w, a, b, turns[0]), a, b, turns[1..])
  }

  // ---- The situation ----

  /** The two callers like each other's identities with compatible intents. */
  ghost predicate Mutual(a: Caller, b: Caller) {
    && a.user != b.user && a.other == b.user && b.other == a.user
    && a.like != b.like
    && Compatible(a.intent, b.intent) && Compatible(b.intent, a.intent)
  }

  /** Their identities are owned, nothing is blocked, and neither has a row about the other. */
  ghost predicate Fresh(db: Db, a: Caller, b: Caller) {
    && Inv(db)
    && a.user in db.users && b.user in db.users
    && Owner(db, a.target) == Some(b.user) && Owner(db, b.target) == Some(a.user)
    && a.like !in db.likes && b.like !in db.likes
    && (a.expiresAt.Some? ==> a.expiresAt.value > db.now) && (b.expiresAt.Some? ==> b.expiresAt.value > db.now)
    && !IsBlocked(db, a.user, b.user) && !IsBlocked(db, b.user, a.user)
    && PairOf(a) !in db.matches
    && NoOtherLikes(db, a, b)
  }

  ghost predicate NoOtherLikes(db: Db, a: Caller, b: Caller) {
    forall id :: id in db.likes && id != a.like && id != b.like ==>
      !(db.likes[id].sender == a.user && Owner(db, db.likes[id].target) == Some(b.user)) &&
      !(db.likes[id].sender == b.user && Owner(db, db.likes[id].target) == Some(a.user))
  }

  // ---- The invariant of the race ----

  /** A caller's like is stored once it has started, PENDING until the match exists. */
  ghost predicate LikeState(db: Db, c: Caller, at: Phase) {
    && (at.Start? <==> c.like !in db.likes)
    && (c.like in db.likes ==>
          db.likes[c.like] == Like(c.user, c.target, c.intent, if PairOf(c) in db.matches then Matched else Pending, c.expiresAt, None))
  }

  /** The match, once there, is ACTIVE on exactly the two new likes. */
  ghost predicate MatchState(db: Db, a: Caller, b: Caller) {
    PairOf(a) in db.matches ==>
      && a.like in db.likes && b.like in db.likes
      && IsActive(db, PairOf(a))
      && NamedBy(db, PairOf(a), a.like) && NamedBy(db, PairOf(a), b.like)
  }

  /** What a caller knows at each point is still true of the other caller. */
  ghost predicate Knows(db: Db, c: Caller, d: Caller, at: Phase, other: Phase) {
    match at
    case Start => true
    case Stored => true
    case Found(rev, revIntent) => rev == d.like && revIntent == d.intent && !other.Start?
    case Checked(rev, revIntent, existing) => rev == d.like && revIntent == d.intent && existing.None? && !other.Start?
    case Lost => PairOf(c) in db.matches
    case Finished(result) =>
      && (result.Some? ==> PairOf(c) in db.matches && db.matches[PairOf(c)].id == result.value)
      && (PairOf(c) !in db.matches ==> !other.Lost? && !other.Finished?)
  }

  /** The tables both callers see, apart from their own phases. */
  ghost predicate Scene(db: Db, a: Caller, b: Caller) {
    && Mutual(a, b) && Inv(db)
    && a.user in db.users && b.user in db.users
    && Owner(db, a.target) == Some(b.user) && Owner(db, b.target) == Some(a.user)
    && (a.expiresAt.Some? ==> a.expiresAt.value > db.now) && (b.expiresAt.Some? ==> b.expiresAt.value > db.now)
    && !IsBlocked(db, a.user, b.user) && !IsBlocked(db, b.user, a.user)
    && NoOtherLikes(db, a, b)
  }

  ghost predicate Racing(db: Db, a: Caller, b: Caller, atA: Phase, atB: Phase) {
    && Scene(db, a, b)
    && LikeState(db, a, atA) && LikeState(db, b, atB)
    && MatchState(db, a, b)
    && Knows(db, a, b, atA, atB) && Knows(db, b, a, atB, atA)
    && (PairOf(a) in db.matches ==> atA == Finished(Some(db.matches[PairOf(a)].id)) || atB == Finished(Some(db.matches[PairOf(a)].id)))
  }

  lemma RacingIsSymmetric(db: Db, a: Caller, b: Caller, atA: Phase, atB: Phase)
    requires Racing(db, a, b, atA, atB)
    ensures Racing(db, b, a, atB, atA)
  {
  }

  lemma StoreKeepsRacing(db: Db, c: Caller, d: Caller, other: Phase)
    requires Racing(db, c, d, Start, other)
    ensures Racing(Persist(db, c.user, c.target, c.intent, c.expiresAt, None, c.like), c, d, Stored, other)
  {
    var db' := Persist(db, c.user, c.target, c.intent, c.expiresAt, None, c.like);
    assert PairOf(c) !in db.matches;
    forall id | id in db.likes ensures !SentTo(db.likes[id], c.user, c.target) {
      if id == d.like {
        assert db.likes[id].sender == d.user;
      }
    }
    PersistKeepsInv(db, c.user, c.target, c.intent, c.expiresAt, None, c.like);
    SameBlocksEverywhere(db, db');
  }

  lemma SameBlocksEverywhere(db: Db, db': Db)
    requires db'.blocks == db.blocks
    ensures forall x, y :: IsBlocked(db', x, y) <==> IsBlocked(db, x, y)
  {
  }

  lemma LookupKeepsRacing(db: Db, c: Caller, d: Caller, other: Phase, pick: Option<LikeId>)
    requires Racing(db, c, d, Stored, other) && ReverseChoice(db, c.user, c.other, pick)
    ensures Racing(db, c, d, Advance(db, c, Stored, pick).1, other)
  {
    if pick.Some? {
      assert pick.value == d.like;
    } else {
      assert !IsReverse(db, c.user, c.other, d.like);
      assert PairOf(c) in db.matches || other.Start?;
    }
  }

  lemma CheckKeepsRacing(db: Db, c: Caller, d: Caller, rev: LikeId, revIntent: Intent, other: Phase)
    requires Racing(db, c, d, Found(rev, revIntent), other)
    ensures Racing(db, c, d, Advance(db, c, Found(rev, revIntent), None).1, other)
  {
  }

  lemma CommitKeepsScene(db: Db, c: Caller, d: Caller)
    requires Scene(db, c, d) && PairOf(c) !in db.matches
    requires Current(db, SummaryFor(c)) && IsReverse(db, c.user, c.other, d.like)
    ensures Scene(Resolve(db, SummaryFor(c), Some(d.like), c.newMatch).0, c, d)
  {
    var s := SummaryFor(c);
    var db' := Resolve(db, s, Some(d.like), c.newMatch).0;
    ResolveKeepsInv(db, s, Some(d.like), c.newMatch);
    ResolveKeepsOwners(db, s, d.like, c.newMatch);
    SameBlocksEverywhere(db, db');
  }

  /** What resolving never touches, and the senders and targets it leaves alone. */
  lemma ResolveKeepsOwners(db: Db, s: Summary, rev: LikeId, newId: MatchId)
    ensures var db' := Resolve(db, s, Some(rev), newId).0;
            && db'.users == db.users && db'.owners == db.owners && db'.blocks == db.blocks
            && db'.now == db.now && db'.cutoff == db.cutoff && db'.likes.Keys == db.likes.Keys
            && forall id :: id in db.likes ==> db'.likes[id] == db.likes[id].(status := db'.likes[id].status)
  {
  }

  /** The committed match names both likes, which become MATCHED. */
  lemma CommitMatchesBoth(db: Db, c: Caller, d: Caller)
    requires Scene(db, c, d) && PairOf(c) !in db.matches
    requires Current(db, SummaryFor(c)) && IsReverse(db, c.user, c.other, d.like) && db.likes[d.like].intent == d.intent
    ensures var (db', matched) := Resolve(db, SummaryFor(c), Some(d.like), c.newMatch);
            && IsActive(db', PairOf(c)) && matched == Some(db'.matches[PairOf(c)].id)
            && NamedBy(db', PairOf(c), c.like) && NamedBy(db', PairOf(c), d.like)
            && c.like in db'.likes && db'.likes[c.like] == db.likes[c.like].(status := Matched)
            && d.like in db'.likes && db'.likes[d.like] == db.likes[d.like].(status := Matched)
  {
    ResolveCommits(db, SummaryFor(c), d.like, c.newMatch);
  }

  lemma FirstCommitKeepsRacing(db: Db, c: Caller, d: Caller, rev: LikeId, revIntent: Intent, other: Phase)
    requires Racing(db, c, d, Checked(rev, revIntent, None), other) && PairOf(c) !in db.matches
    ensures var (db', at) := Advance(db, c, Checked(rev, revIntent, None), None);
            Racing(db', c, d, at, other) && at.Finished? && PairOf(c) in db'.matches
  {
    var s := SummaryFor(c);
    assert s == SummaryOf(db, c.like) && Current(db, s) && IsReverse(db, c.user, c.other, d.like);
    CommitIsResolve(db, c, d);
    CommitKeepsScene(db, c, d);
    CommitMatchesBoth(db, c, d);
    assert PairOf(d) == PairOf(c);
  }

  lemma LateCommitLoses(db: Db, c: Caller, d: Caller, rev: LikeId, revIntent: Intent, other: Phase)
    requires Racing(db, c, d, Checked(rev, revIntent, None), other) && PairOf(c) in db.matches
    ensures Advance(db, c, Checked(rev, revIntent, None), None) == (db, Lost)
    ensures Racing(db, c, d, Lost, other)
  {
  }

  /** The first transaction to run commits; the other one finds the pair key taken. */
  lemma CommitKeepsRacing(db: Db, c: Caller, d: Caller, rev: LikeId, revIntent: Intent, other: Phase)
    requires Racing(db, c, d, Checked(rev, revIntent, None), other)
    ensures var (db', at) := Advance(db, c, Checked(rev, revIntent, None), None);
            && Racing(db', c, d, at, other)
            && (at.Finished? <==> PairOf(c) !in db.matches) && (at.Lost? <==> PairOf(c) in db.matches)
  {
    if PairOf(c) in db.matches {
      LateCommitLoses(db, c, d, rev, revIntent, other);
    } else {
      FirstCommitKeepsRacing(db, c, d, rev, revIntent, other);
    }
  }

  /** With no row for the pair, the transaction does what resolving in one go would do. */
  lemma CommitIsResolve(db: Db, c: Caller, d: Caller)
    requires Scene(db, c, d) && PairOf(c) !in db.matches
    requires Current(db, SummaryFor(c)) && IsReverse(db, c.user, c.other, d.like) && db.likes[d.like].intent == d.intent
    ensures var (db', matched) := Resolve(db, SummaryFor(c), Some(d.like), c.newMatch);
            Advance(db, c, Checked(d.like, d.intent, None), None) == (db', Finished(matched)) && matched.Some?
  {
    ResolveCommits(db, SummaryFor(c), d.like, c.newMatch);
  }

  /** The caller that lost the race is told the winner's match. */
  lemma LostReadsTheMatch(db: Db, c: Caller, d: Caller, other: Phase)
    requires Racing(db, c, d, Lost, other)
    ensures Racing(db, c, d, Advance(db, c, Lost, None).1, other)
    ensures PairOf(c) in db.matches && Advance(db, c, Lost, None) == (db, Finished(Some(db.matches[PairOf(c)].id)))
  {
  }

  lemma AdvanceShrinks(db: Db, c: Caller, at: Phase, pick: Option<LikeId>)
    ensures StepsLeft(Advance(db, c, at, pick).1) < StepsLeft(at) || at.Finished?
  {
  }

  lemma AdvanceKeepsRacing(db: Db, c: Caller, d: Caller, at: Phase, other: Phase, pick: Option<LikeId>)
    requires Racing(db, c, d, at, other) && PickOk(db, c, at, pick)
    ensures var (db', at') := Advance(db, c, at, pick); Racing(db', c, d, at', other)
  {
    match at
    case Start => StoreKeepsRacing(db, c, d, other);
    case Stored => LookupKeepsRacing(db, c, d, other, pick);
    case Found(rev, revIntent) => CheckKeepsRacing(db, c, d, rev, revIntent, other);
    case Checked(rev, revIntent, existing) => CommitKeepsRacing(db, c, d, rev, revIntent, other);
    case Lost => LostReadsTheMatch(db, c, d, other);
    case Finished(_) =>
  }

  lemma TurnKeepsRacing(w: World, a: Caller, b: Caller, t: Turn)
    requires Racing(w.db, a, b, w.a, w.b) && TurnOk(w, a, b, t)
    ensures var w' := Play(w, a, b, t); Racing(w'.db, a, b, w'.a, w'.b)
  {
    if t.first {
      AdvanceKeepsRacing(w.db, a, b, w.a, w.b, t.pick);
    } else {
      RacingIsSymmetric(w.db, a, b, w.a, w.b);
      AdvanceKeepsRacing(w.db, b, a, w.b, w.a, t.pick);
      var (db', at) := Advance(w.db, b, w.b, t.pick);
      RacingIsSymmetric(db', b, a, at, w.a);
    }
  }

  lemma {:induction false} ScheduleKeepsRacing(w: World, a: Caller, b: Caller, turns: seq<Turn>)
    requires Racing(w.db, a, b, w.a, w.b) && IsSchedule(w, a, b, turns)
    ensures var w' := PlayAll(w, a, b, turns); Racing(w'.db, a, b, w'.a, w'.b)
    decreases |turns|
  {
    if turns != [] {
      TurnKeepsRacing(w, a, b, turns[0]);
      ScheduleKeepsRacing(Play(w, a, b, turns[0]), a, b, turns[1..]);
    }
  }

  lemma FreshIsRacing(db: Db, a: Caller, b: Caller)
    requires Mutual(a, b) && Fresh(db, a, b)
    ensures Racing(db, a, b, Start, Start)
  {
  }

  /** Under every interleaving, once both callers are done the pair has exactly one match,
      ACTIVE, naming both likes, which are MATCHED; no other row names either like; at
      least one caller was told the match, and nobody was told another one. */
  lemma RaceEndsInOneMatch(db: Db, a: Caller, b: Caller, turns: seq<Turn>)
    requires Mutual(a, b) && Fresh(db, a, b) && IsSchedule(World(db, Start, Start), a, b, turns)
    requires var w := PlayAll(World(db, Start, Start), a, b, turns); w.a.Finished? && w.b.Finished?
    ensures var w := PlayAll(World(db, Start, Start), a, b, turns);
            var p := PairOf(a);
            && Inv(w.db) && IsActive(w.db, p)
            && a.like in w.db.likes && b.like in w.db.likes
            && w.db.likes[a.like].status.Matched? && w.db.likes[b.like].status.Matched?
            && NamedBy(w.db, p, a.like) && NamedBy(w.db, p, b.like)
            && (forall q :: NamedBy(w.db, q, a.like) || NamedBy(w.db, q, b.like) ==> q == p)
            && (w.a.result.Some? || w.b.result.Some?)
            && (w.a.result.Some? ==> w.a.result.value == w.db.matches[p].id)
            && (w.b.result.Some? ==> w.b.result.value == w.db.matches[p].id)
  {
    FreshIsRacing(db, a, b);
    ScheduleKeepsRacing(World(db, Start, Start), a, b, turns);
    var w := PlayAll(World(db, Start, Start), a, b, turns);
    MatchedIffNamedOnce(w.db, a.like);
    MatchedIffNamedOnce(w.db, b.like);
  }

  function TurnsOf(turns: seq<Turn>, first: bool): nat {
    if turns == [] then 0 else (if turns[0].first == first then 1 else 0) + TurnsOf(turns[1..], first)
  }

  /** No caller waits for the other: five turns each are enough. */
  lemma {:induction false} RaceTerminates(w: World, a: Caller, b: Caller, turns: seq<Turn>)
    requires Racing(w.db, a, b, w.a, w.b) && IsSchedule(w, a, b, turns)
    ensures var w' := PlayAll(w, a, b, turns);
            && (TurnsOf(turns, true) >= StepsLeft(w.a) ==> w'.a.Finished?)
            && (TurnsOf(turns, false) >= StepsLeft(w.b) ==> w'.b.Finished?)
    decreases |turns|
  {
    if turns != [] {
      TurnKeepsRacing(w, a, b, turns[0]);
      AdvanceShrinks(w.db, a, w.a, turns[0].pick);
      AdvanceShrinks(w.db, b, w.b, turns[0].pick);
      RaceTerminates(Play(w, a, b, turns[0]), a, b, turns[1..]);
    }
  }
}
