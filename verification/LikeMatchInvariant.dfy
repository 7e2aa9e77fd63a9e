/** The like–match invariant, and that every step keeps it. */
module LikeMatchInvariant {
  import opened Prelude
  import CreditLedger
  import opened CreditsService
  import opened LikeMatch

  // ---- The invariant ----

  ghost predicate LikeOk(db: Db, l: Like) {
    && l.sender in db.users
    && l.target in db.owners
    && (l.status.Pending? || l.status.Matched? ==> l.deletedAt.None?)
    && (BlocksReliking(l, db.cutoff) ==> db.owners[l.target] != Some(l.sender))
  }

  ghost predicate LikesOk(db: Db) {
    forall id :: id in db.likes ==> LikeOk(db, db.likes[id])
  }

  /** One row per sender and target. */
  ghost predicate LikesUnique(db: Db) {
    forall i, j :: i in db.likes && j in db.likes && SentTo(db.likes[i], db.likes[j].sender, db.likes[j].target) ==> i == j
  }

  /** `id` was sent by `from` to an identity that `to` owns. */
  ghost predicate Sends(db: Db, id: LikeId, from: UserId, to: UserId) {
    id in db.likes && db.likes[id].sender == from && Owner(db, db.likes[id].target) == Some(to)
  }

  ghost predicate ActiveOk(db: Db, m: Match)
    requires m.likeOne in db.likes && m.likeTwo in db.likes
  {
    && db.likes[m.likeOne].status.Matched?
    && db.likes[m.likeTwo].status.Matched?
    && m.intentOne == db.likes[m.likeOne].intent
    && m.intentTwo == db.likes[m.likeTwo].intent
    && Compatible(m.intentOne, m.intentTwo)
  }

  ghost predicate MatchOk(db: Db, p: Pair, m: Match) {
    && p.one < p.two
    && Sends(db, m.likeOne, p.one, p.two)
    && Sends(db, m.likeTwo, p.two, p.one)
    && !m.status.Blocked?
    && (m.status.Active? <==> m.deletedAt.None?)
    && (m.status.Active? ==> ActiveOk(db, m))
  }

  ghost predicate MatchesOk(db: Db) {
    forall p :: p in db.matches ==> MatchOk(db, p, db.matches[p])
  }

  ghost predicate NamedBy(db: Db, p: Pair, id: LikeId) {
    IsActive(db, p) && (db.matches[p].likeOne == id || db.matches[p].likeTwo == id)
  }

  /** A MATCHED like is named by the ACTIVE match of its sender and its target's owner. */
  ghost predicate MatchedOk(db: Db) {
    forall id :: id in db.likes && db.likes[id].status.Matched? ==>
      var owner := Owner(db, db.likes[id].target);
      owner.Some? && NamedBy(db, Sorted(db.likes[id].sender, owner.value), id)
  }

  ghost predicate IdentitiesOk(db: Db) {
    && (forall i :: i in db.owners && db.owners[i].Some? ==> db.owners[i].value in db.users)
    && (forall v :: v in db.values ==> db.values[v] in db.owners)
  }

  ghost predicate Inv(db: Db) {
    LikesOk(db) && LikesUnique(db) && MatchesOk(db) && MatchedOk(db) && IdentitiesOk(db) && db.cutoff <= db.now
  }

  /** One row per blocker and blocked user, the unique key of the block table, and nobody
      blocks themselves. */
  ghost predicate BlocksOk(db: Db) {
    && (forall k :: k in db.blocks ==> db.blocks[k].blocked != Some(db.blocks[k].blocker))
    && forall j, k | j in db.blocks && k in db.blocks && db.blocks[j].blocked.Some? ::
      db.blocks[j].blocker == db.blocks[k].blocker && db.blocks[j].blocked == db.blocks[k].blocked ==> j == k
  }

  // ---- What the invariant says ----

  /** A like is MATCHED exactly when an ACTIVE match names it, that match is unique, and
      it is unique in which of its two columns it names it. */
  lemma MatchedIffNamedOnce(db: Db, id: LikeId)
    requires Inv(db) && id in db.likes
    ensures db.likes[id].status.Matched? <==> exists p :: NamedBy(db, p, id)
    ensures forall p, q :: NamedBy(db, p, id) && NamedBy(db, q, id) ==> p == q
    ensures forall p :: NamedBy(db, p, id) ==> db.matches[p].likeOne != db.matches[p].likeTwo
  {
    forall p | NamedBy(db, p, id)
      ensures db.likes[id].status.Matched?
      ensures Owner(db, db.likes[id].target).Some? && p == Sorted(db.likes[id].sender, Owner(db, db.likes[id].target).value)
      ensures db.matches[p].likeOne != db.matches[p].likeTwo
    {
      assert MatchOk(db, p, db.matches[p]);
    }
    if db.likes[id].status.Matched? {
      assert NamedBy(db, Sorted(db.likes[id].sender, Owner(db, db.likes[id].target).value), id);
    }
  }

  // ---- Resolving a like ----

  /** The summary describes a live pending like of the tables. */
  ghost predicate Current(db: Db, s: Summary) {
    && s.id in db.likes
    && s == SummaryOf(db, s.id)
    && db.likes[s.id].status.Pending?
    && PassesFilter(db.likes[s.id], db.cutoff)
  }

  /** No match row of another pair can use either like: a like fixes its pair. */
  lemma LikesFixPairs(db: Db, p: Pair, likeOne: LikeId, likeTwo: LikeId)
    requires MatchesOk(db)
    requires p.one < p.two && Sends(db, likeOne, p.one, p.two) && Sends(db, likeTwo, p.two, p.one)
    ensures !LikeTaken(db, p, likeOne, likeTwo)
  {
    forall q | q in db.matches && (db.matches[q].likeOne == likeOne || db.matches[q].likeTwo == likeTwo) ensures q == p {
      assert MatchOk(db, q, db.matches[q]);
    }
  }

  /** Run alone, the match transaction always commits, with the roles sorted and both
      likes found where the row says they are. */
  lemma ResolveCommits(db: Db, s: Summary, rev: LikeId, newId: MatchId)
    requires Inv(db) && Current(db, s) && s.owner.Some? && IsReverse(db, s.sender, s.owner.value, rev)
    requires Eligible(db, s.sender, s.owner.value, s.intent, db.likes[rev].intent)
    ensures var p := Sorted(s.sender, s.owner.value);
            var (db', matched) := Resolve(db, s, Some(rev), newId);
            && p.one < p.two && s.id != rev
            && p in db'.matches
            && matched == Some(db'.matches[p].id)
            && db'.matches[p].id == (if p in db.matches then db.matches[p].id else newId)
            && db' == db.(matches := db.matches[p := db'.matches[p]],
                          likes := db.likes[s.id := db.likes[s.id].(status := Matched)][rev := db.likes[rev].(status := Matched)])
            && db'.matches[p].status.Active? && db'.matches[p].deletedAt.None?
            && ((db'.matches[p].likeOne == s.id && db'.matches[p].likeTwo == rev && p.one == s.sender
                 && db'.matches[p].intentOne == s.intent && db'.matches[p].intentTwo == db.likes[rev].intent)
                || (db'.matches[p].likeOne == rev && db'.matches[p].likeTwo == s.id && p.two == s.sender
                    && db'.matches[p].intentOne == db.likes[rev].intent && db'.matches[p].intentTwo == s.intent))
  {
    var p := Sorted(s.sender, s.owner.value);
    assert LikeOk(db, db.likes[s.id]);
    assert s.sender != s.owner.value;
    if p.one == s.sender {
      LikesFixPairs(db, p, s.id, rev);
    } else {
      LikesFixPairs(db, p, rev, s.id);
    }
    var a, b := db.likes[s.id].(status := Matched), db.likes[rev].(status := Matched);
    assert db.likes[s.id := a][rev := b] == db.likes[rev := b][s.id := a];
  }

  /** The tables after a match was committed for `p` on likes `a` and `b`. */
  ghost predicate Paired(db: Db, db': Db, p: Pair, a: LikeId, b: LikeId) {
    && a in db.likes && b in db.likes && a != b
    && p in db'.matches
    && db' == db.(matches := db.matches[p := db'.matches[p]],
                  likes := db.likes[a := db.likes[a].(status := Matched)][b := db.likes[b].(status := Matched)])
    && db.likes[a].deletedAt.None? && db.likes[b].deletedAt.None?
    && !IsActive(db, p)
    && db'.matches[p].likeOne == a && db'.matches[p].likeTwo == b
    && MatchOk(db', p, db'.matches[p]) && IsActive(db', p)
  }

  lemma PairedKeepsLikes(db: Db, db': Db, p: Pair, a: LikeId, b: LikeId)
    requires Inv(db) && Paired(db, db', p, a, b)
    ensures LikesOk(db') && LikesUnique(db')
  {
    forall id | id in db'.likes ensures LikeOk(db', db'.likes[id]) {
      assert LikeOk(db, db.likes[id]);
    }
  }

  lemma PairedKeepsMatches(db: Db, db': Db, p: Pair, a: LikeId, b: LikeId)
    requires Inv(db) && Paired(db, db', p, a, b)
    ensures MatchesOk(db')
  {
    forall q | q in db'.matches ensures MatchOk(db', q, db'.matches[q]) {
      if q != p {
        assert MatchOk(db, q, db.matches[q]);
      }
    }
  }

  lemma PairedKeepsMatched(db: Db, db': Db, p: Pair, a: LikeId, b: LikeId)
    requires Inv(db) && Paired(db, db', p, a, b)
    ensures MatchedOk(db')
  {
    forall id | id in db'.likes && db'.likes[id].status.Matched?
      ensures var owner := Owner(db', db'.likes[id].target);
              owner.Some? && NamedBy(db', Sorted(db'.likes[id].sender, owner.value), id)
    {
      if id != a && id != b {
        assert NamedBy(db, Sorted(db.likes[id].sender, Owner(db, db.likes[id].target).value), id);
      }
    }
  }

  lemma ResolvePairs(db: Db, s: Summary, rev: LikeId, newId: MatchId)
    requires Inv(db) && Current(db, s) && s.owner.Some? && IsReverse(db, s.sender, s.owner.value, rev)
    requires Eligible(db, s.sender, s.owner.value, s.intent, db.likes[rev].intent)
    ensures var db' := Resolve(db, s, Some(rev), newId).0;
            Paired(db, db', Sorted(s.sender, s.owner.value), s.id, rev) || Paired(db, db', Sorted(s.sender, s.owner.value), rev, s.id)
  {
    ResolveCommits(db, s, rev, newId);
    assert LikeOk(db, db.likes[s.id]);
    var a, b := db.likes[s.id].(status := Matched), db.likes[rev].(status := Matched);
    assert db.likes[s.id := a][rev := b] == db.likes[rev := b][s.id := a];
  }

  lemma ResolveKeepsInv(db: Db, s: Summary, rev: Option<LikeId>, newId: MatchId)
    requires Inv(db) && Current(db, s)
    requires s.owner.Some? ==> ReverseChoice(db, s.sender, s.owner.value, rev)
    ensures Inv(Resolve(db, s, rev, newId).0)
  {
    var db' := Resolve(db, s, rev, newId).0;
    if s.owner.Some? && rev.Some? && Eligible(db, s.sender, s.owner.value, s.intent, db.likes[rev.value].intent) {
      ResolvePairs(db, s, rev.value, newId);
      var p := Sorted(s.sender, s.owner.value);
      var a, b := db'.matches[p].likeOne, db'.matches[p].likeTwo;
      PairedKeepsLikes(db, db', p, a, b);
      PairedKeepsMatches(db, db', p, a, b);
      PairedKeepsMatched(db, db', p, a, b);
    }
  }

  // ---- Creating a like ----

  ghost predicate RequestOk(db: Db, q: LikeRequest) {
    && q.user in db.users
    && q.newIdentity !in db.owners
    && q.newLike !in db.likes
    && (q.expiresAt.Some? ==> q.expiresAt.value > db.now)
    && var (db1, located) := LocateIdentity(db, q.target, q.newIdentity);
       located.Some? ==> ReuseChoice(db1, q.user, located.value, q.reuse)
  }

  /** The later lookup of the reverse like, on the tables after the like is stored. */
  ghost predicate RequestResolves(db: Db, q: LikeRequest) {
    var (stored, result) := StoreLike(db, q);
    result.Created? && result.like in stored.likes ==>
      var s := SummaryOf(stored, result.like);
      s.owner.Some? ==> ReverseChoice(stored, s.sender, s.owner.value, q.rev)
  }

  lemma LocateKeepsInv(db: Db, target: Target, newIdentity: IdentityId)
    requires Inv(db) && newIdentity !in db.owners
    ensures var (db', located) := LocateIdentity(db, target, newIdentity);
            Inv(db') && db'.likes == db.likes && db'.matches == db.matches && db'.ledgers == db.ledgers
  {
    var db' := LocateIdentity(db, target, newIdentity).0;
    LocateGives(db, target, newIdentity);
    forall id | id in db.likes && BlocksReliking(db.likes[id], db.cutoff)
      ensures db'.owners[db.likes[id].target] != Some(db.likes[id].sender)
    {
      assert LikeOk(db, db.likes[id]);
    }
    GivenKeepsLikes(db, db', 0);
    GivenKeepsMatches(db, db', 0);
  }

  lemma LocateGives(db: Db, target: Target, newIdentity: IdentityId)
    requires IdentitiesOk(db) && newIdentity !in db.owners
    ensures var db' := LocateIdentity(db, target, newIdentity).0;
            && Given(db, db', 0) && IdentitiesOk(db') && db'.now == db.now && db'.cutoff == db.cutoff
            && db'.ledgers == db.ledgers && db'.blocks == db.blocks
            && forall i :: i in db.owners ==> db'.owners[i] == db.owners[i]
  {
  }

  /** Locating is idempotent: whatever it found or created, locating the same target again
      finds that identity and changes nothing. A created identity is unowned and nobody has
      liked it; the identities that were there keep their owners. */
  lemma LocateTwice(db: Db, target: Target, newIdentity: IdentityId, another: IdentityId)
    requires Inv(db) && newIdentity !in db.owners
    ensures var (db1, located) := LocateIdentity(db, target, newIdentity);
            && LocateIdentity(db1, target, another) == (db1, located)
            && (target.ByValue? ==> located.Some? && located.value in db1.owners)
            && (located.Some? && located.value !in db.owners && target.ByValue? ==>
                  Owner(db1, located.value).None? && forall id :: id in db1.likes ==> db1.likes[id].target != located.value)
            && forall i :: i in db.owners ==> i in db1.owners && db1.owners[i] == db.owners[i]
  {
    var db1 := LocateIdentity(db, target, newIdentity).0;
    forall id | id in db1.likes ensures db1.likes[id].target in db.owners {
      assert LikeOk(db, db.likes[id]);
    }
  }

  /** A row that is neither live PENDING nor re-usable is MATCHED, and then its match is
      ACTIVE: the three refusals and re-uses of `create` leave no case for an insert. */
  lemma ExistingRowIsHandled(db: Db, user: UserId, i: IdentityId, id: LikeId)
    requires Inv(db) && id in db.likes && SentTo(db.likes[id], user, i)
    requires !BlocksReliking(db.likes[id], db.cutoff) && !IsReusable(db.likes[id], db.now)
    ensures Owner(db, i).Some? && IsActive(db, Sorted(user, Owner(db, i).value))
  {
    assert LikeOk(db, db.likes[id]);
    assert db.likes[id].status.Matched?;
  }

  /** The filter keeps the date of its import, so a pending like that has expired since then
      still refuses a new one although its row could be re-used: exactly when its expiry
      lies after the import and not after now. */
  lemma StaleFilterRefuses(db: Db, user: UserId, i: IdentityId, id: LikeId)
    requires Inv(db) && id in db.likes && SentTo(db.likes[id], user, i) && i in db.owners && db.owners[i] != Some(user)
    ensures Refusal(db, user, i) == Some(AlreadyLiked) && IsReusable(db.likes[id], db.now)
            <==> db.likes[id].status.Pending? && db.likes[id].expiresAt.Some?
                 && db.cutoff < db.likes[id].expiresAt.value <= db.now
  {
    assert LikeOk(db, db.likes[id]);
    assert forall x :: x in db.likes && SentTo(db.likes[x], user, i) ==> x == id;
    assert Refusal(db, user, i) == Some(AlreadyLiked) <==> BlocksReliking(db.likes[id], db.cutoff);
  }

  /** Storing a like over a row that is not MATCHED, or under a new id. */
  lemma PersistKeepsInv(db: Db, user: UserId, i: IdentityId, intent: Intent, expiresAt: Option<int>,
                        reuse: Option<LikeId>, newLike: LikeId)
    requires Inv(db) && user in db.users && i in db.owners && db.owners[i] != Some(user)
    requires reuse.Some? ==> reuse.value in db.likes && SentTo(db.likes[reuse.value], user, i) && !db.likes[reuse.value].status.Matched?
    requires reuse.None? ==> newLike !in db.likes && forall id :: id in db.likes ==> !SentTo(db.likes[id], user, i)
    ensures Inv(Persist(db, user, i, intent, expiresAt, reuse, newLike))
  {
    var db' := Persist(db, user, i, intent, expiresAt, reuse, newLike);
    forall id | id in db'.likes ensures LikeOk(db', db'.likes[id]) {
      if id in db.likes {
        assert LikeOk(db, db.likes[id]);
      }
    }
    forall p | p in db'.matches ensures MatchOk(db', p, db'.matches[p]) {
      assert MatchOk(db, p, db.matches[p]);
    }
    forall id | id in db'.likes && db'.likes[id].status.Matched?
      ensures var owner := Owner(db', db'.likes[id].target);
              owner.Some? && NamedBy(db', Sorted(db'.likes[id].sender, owner.value), id)
    {
      assert NamedBy(db, Sorted(db.likes[id].sender, Owner(db, db.likes[id].target).value), id);
    }
  }

  /** What a successful creation stored. */
  lemma StoreLikeShape(db: Db, q: LikeRequest)
    requires StoreLike(db, q).1.Created?
    ensures var (db1, located) := LocateIdentity(db, q.target, q.newIdentity);
            var (stored, result) := StoreLike(db, q);
            && located.Some? && located.value in db1.owners && db1.owners[located.value] != Some(q.user)
            && (q.reuse.None? ==> forall id :: id in db1.likes ==> !SentTo(db1.likes[id], q.user, located.value))
            && stored == Persist(db1, q.user, located.value, q.intent, q.expiresAt, q.reuse, q.newLike).(ledgers := stored.ledgers)
            && result.like == (if q.reuse.Some? then q.reuse.value else q.newLike)
            && result.like in stored.likes
            && stored.likes[result.like] == Like(q.user, located.value, q.intent, Pending, q.expiresAt, None)
  {
  }

  lemma StoredLikeIsCurrent(db: Db, q: LikeRequest)
    requires StoreLike(db, q).1.Created? && db.cutoff <= db.now
    requires q.expiresAt.Some? ==> q.expiresAt.value > db.now
    ensures var (stored, result) := StoreLike(db, q);
            result.like in stored.likes && Current(stored, SummaryOf(stored, result.like))
            && stored.likes[result.like].sender == q.user
  {
    StoreLikeShape(db, q);
  }

  /** The refusals of `create` leave no row that an insert could collide with. */
  lemma StoreLikeNeverDuplicates(db: Db, q: LikeRequest)
    requires Inv(db) && RequestOk(db, q)
    ensures !StoreLike(db, q).1.DuplicateRow?
  {
    var (db1, located) := LocateIdentity(db, q.target, q.newIdentity);
    LocateKeepsInv(db, q.target, q.newIdentity);
    if located.Some? {
      forall id | id in db1.likes && SentTo(db1.likes[id], q.user, located.value) && !BlocksReliking(db1.likes[id], db1.cutoff)
                  && !IsReusable(db1.likes[id], db1.now)
        ensures Owner(db1, located.value).Some? && IsActive(db1, Sorted(q.user, Owner(db1, located.value).value))
      {
        ExistingRowIsHandled(db1, q.user, located.value, id);
      }
    }
  }

  lemma StoreLikeKeepsInv(db: Db, q: LikeRequest)
    requires Inv(db) && RequestOk(db, q)
    ensures Inv(StoreLike(db, q).0)
  {
    var (db1, located) := LocateIdentity(db, q.target, q.newIdentity);
    LocateKeepsInv(db, q.target, q.newIdentity);
    var (stored, result) := StoreLike(db, q);
    if result.Created? {
      StoreLikeShape(db, q);
      if q.reuse.Some? {
        assert LikeOk(db1, db1.likes[q.reuse.value]);
      }
      PersistKeepsInv(db1, q.user, located.value, q.intent, q.expiresAt, q.reuse, q.newLike);
      LedgersDoNotMatter(Persist(db1, q.user, located.value, q.intent, q.expiresAt, q.reuse, q.newLike), stored.ledgers);
    }
  }

  lemma LedgersDoNotMatter(db: Db, ledgers: Ledgers)
    requires Inv(db)
    ensures Inv(db.(ledgers := ledgers))
  {
    var db' := db.(ledgers := ledgers);
    forall id | id in db'.likes ensures LikeOk(db', db'.likes[id]) {
      assert LikeOk(db, db.likes[id]);
    }
    forall p | p in db'.matches ensures MatchOk(db', p, db'.matches[p]) {
      assert MatchOk(db, p, db.matches[p]);
    }
    assert MatchedOk(db');
  }

  lemma CreateLikeKeepsInv(db: Db, q: LikeRequest)
    requires Inv(db) && RequestOk(db, q) && RequestResolves(db, q)
    ensures Inv(CreateLike(db, q).0) && !CreateLike(db, q).1.DuplicateRow?
  {
    var (stored, result) := StoreLike(db, q);
    StoreLikeKeepsInv(db, q);
    StoreLikeNeverDuplicates(db, q);
    if result.Created? {
      StoredLikeIsCurrent(db, q);
      ResolveKeepsInv(stored, SummaryOf(stored, result.like), q.rev, q.newMatch);
    }
  }

  // ---- Deleting a like, unmatching ----

  lemma DeleteLikeKeepsInv(db: Db, user: UserId, id: LikeId)
    requires Inv(db)
    ensures Inv(DeleteLike(db, user, id))
  {
    var db' := DeleteLike(db, user, id);
    if CanDelete(db, user, id) {
      assert LikesOk(db') by {
        forall x | x in db'.likes ensures LikeOk(db', db'.likes[x]) {
          assert LikeOk(db, db.likes[x]);
        }
      }
      assert MatchesOk(db') by {
        forall p | p in db'.matches ensures MatchOk(db', p, db'.matches[p]) {
          assert MatchOk(db, p, db.matches[p]);
        }
      }
      assert MatchedOk(db') by {
        MatchedShrinks(db, db');
      }
    }
  }

  /** MATCHED likes and the matches naming them may only shrink together. */
  lemma MatchedShrinks(db: Db, db': Db)
    requires MatchedOk(db) && db'.owners == db.owners && db'.likes.Keys <= db.likes.Keys
    requires forall id :: id in db'.likes && db'.likes[id].status.Matched? ==> db'.likes[id] == db.likes[id]
    requires forall p, id :: id in db'.likes && db'.likes[id].status.Matched? && NamedBy(db, p, id) ==> NamedBy(db', p, id)
    ensures MatchedOk(db')
  {
    forall id | id in db'.likes && db'.likes[id].status.Matched?
      ensures var owner := Owner(db', db'.likes[id].target);
              owner.Some? && NamedBy(db', Sorted(db'.likes[id].sender, owner.value), id)
    {
      assert NamedBy(db, Sorted(db.likes[id].sender, Owner(db, db.likes[id].target).value), id);
    }
  }

  /** What unmatching writes: the row, and both its likes. */
  lemma UnmatchWrites(db: Db, user: UserId, p: Pair)
    requires Inv(db) && CanUnmatch(db, user, p)
    ensures var m, db' := db.matches[p], Unmatch(db, user, p);
            && m.likeOne != m.likeTwo
            && db'.matches == db.matches[p := m.(status := Unmatched, deletedAt := Some(db.now))]
            && db'.likes.Keys == db.likes.Keys
            && (forall id :: id in db.likes && id != m.likeOne && id != m.likeTwo ==> db'.likes[id] == db.likes[id])
            && db'.likes[m.likeOne] == db.likes[m.likeOne].(status := if user == p.one then Withdrawn else Voided)
            && db'.likes[m.likeTwo] == db.likes[m.likeTwo].(status := if user == p.one then Voided else Withdrawn)
  {
    assert MatchOk(db, p, db.matches[p]);
  }

  /** `db'` differs in the status of the two likes of pair `p`, and in that pair's row. */
  ghost predicate OnlyPairChanges(db: Db, db': Db, p: Pair)
    requires p in db.matches
  {
    && db'.owners == db.owners && db'.likes.Keys == db.likes.Keys && db'.matches.Keys == db.matches.Keys
    && (forall q :: q in db.matches && q != p ==> db'.matches[q] == db.matches[q])
    && (forall id :: id in db.likes && id != db.matches[p].likeOne && id != db.matches[p].likeTwo ==> db'.likes[id] == db.likes[id])
    && (forall id :: id in db.likes ==> db'.likes[id] == db.likes[id].(status := db'.likes[id].status))
  }

  lemma OtherMatchStays(db: Db, db': Db, p: Pair, q: Pair)
    requires p in db.matches && q in db.matches && q != p && OnlyPairChanges(db, db', p)
    requires MatchOk(db, p, db.matches[p]) && MatchOk(db, q, db.matches[q])
    ensures MatchOk(db', q, db'.matches[q])
  {
    var m, n := db.matches[p], db.matches[q];
    assert n.likeOne != m.likeOne && n.likeOne != m.likeTwo;
    assert n.likeTwo != m.likeOne && n.likeTwo != m.likeTwo;
  }

  lemma UnmatchKeepsMatches(db: Db, user: UserId, p: Pair)
    requires MatchesOk(db) && CanUnmatch(db, user, p)
    ensures MatchesOk(Unmatch(db, user, p))
  {
    var db' := Unmatch(db, user, p);
    assert MatchOk(db, p, db.matches[p]);
    UnmatchChangesPair(db, user, p);
    forall q | q in db'.matches ensures MatchOk(db', q, db'.matches[q]) {
      if q != p {
        OtherMatchStays(db, db', p, q);
      }
    }
  }

  lemma UnmatchChangesPair(db: Db, user: UserId, p: Pair)
    requires CanUnmatch(db, user, p) && MatchOk(db, p, db.matches[p])
    ensures OnlyPairChanges(db, Unmatch(db, user, p), p)
    ensures MatchOk(Unmatch(db, user, p), p, Unmatch(db, user, p).matches[p])
  {
  }

  lemma UnmatchKeepsMatched(db: Db, user: UserId, p: Pair)
    requires MatchedOk(db) && CanUnmatch(db, user, p)
    ensures MatchedOk(Unmatch(db, user, p))
  {
    UnmatchRetires(db, user, p);
    UnmatchFellsItsLikes(db, user, p);
    OnlyItsLikesFall(db, Unmatch(db, user, p), p);
  }

  lemma UnmatchFellsItsLikes(db: Db, user: UserId, p: Pair)
    requires CanUnmatch(db, user, p)
    ensures var m, db' := db.matches[p], Unmatch(db, user, p);
            && !db'.likes[m.likeOne].status.Matched? && !db'.likes[m.likeTwo].status.Matched?
            && (forall id :: id in db.likes && id != m.likeOne && id != m.likeTwo ==> db'.likes[id] == db.likes[id])
            && (forall q :: q in db.matches && q != p ==> q in db'.matches && db'.matches[q] == db.matches[q])
  {
  }

  lemma OnlyItsLikesFall(db: Db, db': Db, p: Pair)
    requires MatchedOk(db) && db'.owners == db.owners && db'.likes.Keys == db.likes.Keys && p in db.matches
    requires forall q :: q in db.matches && q != p ==> q in db'.matches && db'.matches[q] == db.matches[q]
    requires forall id :: id in db.likes && id != db.matches[p].likeOne && id != db.matches[p].likeTwo ==> db'.likes[id] == db.likes[id]
    requires forall id :: id in db.likes && (id == db.matches[p].likeOne || id == db.matches[p].likeTwo) ==> !db'.likes[id].status.Matched?
    ensures MatchedOk(db')
  {
    forall id | id in db'.likes && db'.likes[id].status.Matched?
      ensures var owner := Owner(db', db'.likes[id].target);
              owner.Some? && NamedBy(db', Sorted(db'.likes[id].sender, owner.value), id)
    {
      assert NamedBy(db, Sorted(db.likes[id].sender, Owner(db, db.likes[id].target).value), id);
    }
  }

  /** Some likes are withdrawn or voided; nothing else about likes or owners changes. */
  ghost predicate Retires(db: Db, db': Db) {
    && db'.users == db.users && db'.owners == db.owners && db'.cutoff == db.cutoff && db'.likes.Keys == db.likes.Keys
    && forall id :: id in db.likes ==>
         && db'.likes[id] == db.likes[id].(status := db'.likes[id].status)
         && (db'.likes[id].status == db.likes[id].status || db'.likes[id].status.Withdrawn? || db'.likes[id].status.Voided?)
  }

  lemma RetiringKeepsLikes(db: Db, db': Db)
    requires LikesOk(db) && LikesUnique(db) && Retires(db, db')
    ensures LikesOk(db') && LikesUnique(db')
  {
    forall id | id in db'.likes ensures LikeOk(db', db'.likes[id]) {
      assert LikeOk(db, db.likes[id]);
    }
  }

  lemma UnmatchRetires(db: Db, user: UserId, p: Pair)
    requires CanUnmatch(db, user, p)
    ensures Retires(db, Unmatch(db, user, p))
  {
  }

  lemma UnmatchKeepsLikes(db: Db, user: UserId, p: Pair)
    requires LikesOk(db) && LikesUnique(db) && CanUnmatch(db, user, p)
    ensures LikesOk(Unmatch(db, user, p)) && LikesUnique(Unmatch(db, user, p))
  {
    UnmatchRetires(db, user, p);
    RetiringKeepsLikes(db, Unmatch(db, user, p));
  }

  lemma UnmatchKeepsInv(db: Db, user: UserId, p: Pair)
    requires Inv(db)
    ensures Inv(Unmatch(db, user, p))
  {
    if CanUnmatch(db, user, p) {
      UnmatchKeepsMatches(db, user, p);
      UnmatchKeepsLikes(db, user, p);
      UnmatchKeepsMatched(db, user, p);
    }
  }

  // ---- Claiming an identity ----

  /** The claimant has no live pending like of their own on the identity being claimed. */
  ghost predicate NoOwnLike(db: Db, user: UserId, v: PublicValue) {
    v in db.values ==> forall id :: id in db.likes && SentTo(db.likes[id], user, db.values[v]) ==> !BlocksReliking(db.likes[id], db.cutoff)
  }

  /** `db'` differs only in giving some unowned or new identities to `user`. */
  ghost predicate Given(db: Db, db': Db, user: UserId) {
    && db'.users == db.users && db'.likes == db.likes && db'.matches == db.matches && db'.cutoff == db.cutoff
    && db.owners.Keys <= db'.owners.Keys
    && (forall i :: i in db'.owners ==> db'.owners[i] == Owner(db, i) || (Owner(db, i).None? && db'.owners[i] == Some(user)))
  }

  lemma GivenKeepsLikes(db: Db, db': Db, user: UserId)
    requires Inv(db) && Given(db, db', user)
    requires forall id :: id in db.likes && BlocksReliking(db.likes[id], db.cutoff) ==> db'.owners[db.likes[id].target] != Some(db.likes[id].sender)
    ensures LikesOk(db') && LikesUnique(db')
  {
    forall id | id in db'.likes ensures LikeOk(db', db'.likes[id]) {
      assert LikeOk(db, db.likes[id]);
    }
  }

  lemma GivenKeepsMatches(db: Db, db': Db, user: UserId)
    requires Inv(db) && Given(db, db', user)
    ensures MatchesOk(db') && MatchedOk(db')
  {
    assert forall i :: Owner(db, i).Some? ==> Owner(db', i) == Owner(db, i);
    forall p | p in db'.matches ensures MatchOk(db', p, db'.matches[p]) {
      assert MatchOk(db, p, db.matches[p]);
    }
    forall id | id in db'.likes && db'.likes[id].status.Matched?
      ensures var owner := Owner(db', db'.likes[id].target);
              owner.Some? && NamedBy(db', Sorted(db'.likes[id].sender, owner.value), id)
    {
      assert NamedBy(db, Sorted(db.likes[id].sender, Owner(db, db.likes[id].target).value), id);
    }
  }

  lemma ClaimGives(db: Db, user: UserId, v: PublicValue, newIdentity: IdentityId)
    requires IdentitiesOk(db) && user in db.users && newIdentity !in db.owners
    ensures Given(db, Claim(db, user, v, newIdentity), user) && IdentitiesOk(Claim(db, user, v, newIdentity))
  {
  }

  lemma ClaimSpares(db: Db, user: UserId, v: PublicValue, newIdentity: IdentityId, l: Like)
    requires LikeOk(db, l) && BlocksReliking(l, db.cutoff) && newIdentity !in db.owners
    requires v in db.values ==> !SentTo(l, user, db.values[v])
    ensures Claim(db, user, v, newIdentity).owners[l.target] != Some(l.sender)
  {
  }

  lemma ClaimKeepsInv(db: Db, user: UserId, v: PublicValue, newIdentity: IdentityId)
    requires Inv(db) && user in db.users && newIdentity !in db.owners && NoOwnLike(db, user, v)
    ensures Inv(Claim(db, user, v, newIdentity))
  {
    var db' := Claim(db, user, v, newIdentity);
    ClaimGives(db, user, v, newIdentity);
    forall id | id in db.likes && BlocksReliking(db.likes[id], db.cutoff)
      ensures db'.owners[db.likes[id].target] != Some(db.likes[id].sender)
    {
      ClaimSpares(db, user, v, newIdentity, db.likes[id]);
    }
    GivenKeepsLikes(db, db', user);
    GivenKeepsMatches(db, db', user);
  }

  ghost predicate AllCurrent(db: Db, todo: seq<Summary>) {
    && (forall k :: 0 <= k < |todo| ==> Current(db, todo[k]))
    && (forall j, k :: 0 <= j < k < |todo| ==> todo[j].id != todo[k].id)
  }

  /** All summaries concern likes on identities of `user`. */
  ghost predicate AllTowards(todo: seq<Summary>, user: UserId) {
    forall k :: 0 <= k < |todo| ==> todo[k].owner == Some(user)
  }

  /** Resolving one of them leaves the other summaries current, although they were read
      before: the reverse like is one of `user`, and none of these is. */
  lemma ResolveKeepsOthersCurrent(db: Db, user: UserId, todo: seq<Summary>, rev: Option<LikeId>, newId: MatchId)
    requires Inv(db) && todo != [] && AllCurrent(db, todo) && AllTowards(todo, user)
    requires ReverseChoice(db, todo[0].sender, user, rev)
    ensures AllCurrent(Resolve(db, todo[0], rev, newId).0, todo[1..]) && AllTowards(todo[1..], user)
  {
    var s := todo[0];
    if rev.Some? && Eligible(db, s.sender, user, s.intent, db.likes[rev.value].intent) {
      ResolveCommits(db, s, rev.value, newId);
      var db' := Resolve(db, s, rev, newId).0;
      forall k | 0 <= k < |todo[1..]| ensures Current(db', todo[1..][k]) {
        var other := todo[k + 1];
        assert Current(db, other);
        assert LikeOk(db, db.likes[other.id]);
        assert other.id != s.id && other.id != rev.value;
      }
    }
  }

  lemma {:induction false} ResolveAllKeepsInv(db: Db, user: UserId, todo: seq<Summary>, revs: seq<Option<LikeId>>, ids: seq<MatchId>)
    requires |todo| == |revs| == |ids|
    requires Inv(db) && AllCurrent(db, todo) && AllTowards(todo, user) && LoopChoices(db, todo, revs, ids)
    ensures Inv(ResolveAll(db, todo, revs, ids))
    decreases |todo|
  {
    if todo != [] {
      ResolveKeepsInv(db, todo[0], revs[0], ids[0]);
      ResolveKeepsOthersCurrent(db, user, todo, revs[0], ids[0]);
      ResolveAllKeepsInv(Resolve(db, todo[0], revs[0], ids[0]).0, user, todo[1..], revs[1..], ids[1..]);
    }
  }

  // ---- Blocks, the clock, accounts ----

  /** Blocking re-uses the pair's lifted row if there is one, so rows stay unique; the
      block then stands in both directions, and lifting a row lifts no other pair's. */
  lemma BlockUserStands(db: Db, blocker: UserId, blocked: UserId, row: Option<BlockId>, newId: BlockId)
    requires BlocksOk(db) && newId !in db.blocks && BlockChoice(db, blocker, blocked, row)
    ensures var db' := BlockUser(db, blocker, blocked, row, newId);
            && BlocksOk(db')
            && (CanBlock(db, blocker, blocked) ==> IsBlocked(db', blocker, blocked) && IsBlocked(db', blocked, blocker))
            && (forall x: UserId, y: UserId :: {x, y} != {blocker, blocked} ==> (IsBlocked(db', x, y) <==> IsBlocked(db, x, y)))
  {
    var db' := BlockUser(db, blocker, blocked, row, newId);
    if CanBlock(db, blocker, blocked) {
      var k := if row.Some? then row.value else newId;
      assert BlockStands(db'.blocks[k], blocker, blocked) && BlockStands(db'.blocks[k], blocked, blocker);
      forall x: UserId, y: UserId | {x, y} != {blocker, blocked} ensures IsBlocked(db', x, y) <==> IsBlocked(db, x, y) {
        assert !BlockStands(db'.blocks[k], x, y) && (k in db.blocks ==> !BlockStands(db.blocks[k], x, y));
        assert forall j :: j in db'.blocks && j != k ==> (BlockStands(db'.blocks[j], x, y) <==> BlockStands(db.blocks[j], x, y));
      }
    }
  }

  lemma UnblockLifts(db: Db, user: UserId, k: BlockId)
    requires BlocksOk(db) && CanUnblock(db, user, k) && db.blocks[k].blocked.Some?
    ensures var db' := Unblock(db, user, k);
            && BlocksOk(db')
            && (forall x: UserId, y: UserId :: {x, y} != {user, db.blocks[k].blocked.value} ==> (IsBlocked(db', x, y) <==> IsBlocked(db, x, y)))
            && (IsBlocked(db', user, db.blocks[k].blocked.value)
                <==> exists j :: j in db.blocks && db.blocks[j].deletedAt.None?
                       && db.blocks[j].blocker == db.blocks[k].blocked.value && db.blocks[j].blocked == Some(user))
  {
    var db', other := Unblock(db, user, k), db.blocks[k].blocked.value;
    forall x: UserId, y: UserId | {x, y} != {user, other} ensures IsBlocked(db', x, y) <==> IsBlocked(db, x, y) {
      assert !BlockStands(db.blocks[k], x, y);
      assert forall j :: j in db.blocks ==> (BlockStands(db'.blocks[j], x, y) <==> BlockStands(db.blocks[j], x, y));
    }
    if IsBlocked(db', user, other) {
      var j :| j in db'.blocks && BlockStands(db'.blocks[j], user, other);
      assert j != k;
      assert db.blocks[j].blocker == other;
    }
    if j :| j in db.blocks && db.blocks[j].deletedAt.None? && db.blocks[j].blocker == other && db.blocks[j].blocked == Some(user) {
      assert j != k;
      assert BlockStands(db'.blocks[j], user, other);
    }
  }

  /** The check looks in both directions. */
  lemma BlockedEitherWay(db: Db, x: UserId, y: UserId)
    ensures IsBlocked(db, x, y) <==> HasBlocked(db, x, y) || HasBlocked(db, y, x)
  {
    if k :| k in db.blocks && BlockStands(db.blocks[k], x, y) {
      assert HasBlocked(db, x, y) || HasBlocked(db, y, x);
    }
    forall k | k in db.blocks ensures BlockStands(db.blocks[k], x, y) <==>
        db.blocks[k].deletedAt.None? && ((db.blocks[k].blocker == x && db.blocks[k].blocked == Some(y))
                                         || (db.blocks[k].blocker == y && db.blocks[k].blocked == Some(x))) {
    }
  }

  /** Letting go of a user: their own blocks are gone and blocks on them lose their target. */
  ghost predicate BlocksLetGo(blocks: map<BlockId, Block>, blocks': map<BlockId, Block>, user: UserId) {
    blocks' == map k | k in blocks && blocks[k].blocker != user ::
                 if blocks[k].blocked == Some(user) then blocks[k].(blocked := None) else blocks[k]
  }

  /** Nobody is then blocked with the user, and between other people nothing changes. */
  lemma LetGoFreesOnlyTheUser(db: Db, db': Db, user: UserId, x: UserId, y: UserId)
    requires BlocksLetGo(db.blocks, db'.blocks, user)
    ensures IsBlocked(db', x, y) <==> x != user && y != user && IsBlocked(db, x, y)
  {
    if x != user && y != user && IsBlocked(db, x, y) {
      var k :| k in db.blocks && BlockStands(db.blocks[k], x, y);
      assert BlockStands(db'.blocks[k], x, y);
    }
    if IsBlocked(db', x, y) {
      var k :| k in db'.blocks && BlockStands(db'.blocks[k], x, y);
      assert BlockStands(db.blocks[k], x, y);
    }
  }

  /** Steps that leave users, identities, likes and matches alone. */
  lemma OtherTablesKeepInv(db: Db, db': Db)
    requires Inv(db)
    requires db.users <= db'.users && db'.owners == db.owners && db'.values == db.values && db'.likes == db.likes
    requires db'.matches == db.matches && db.cutoff <= db'.cutoff <= db'.now
    ensures Inv(db')
  {
    forall id | id in db'.likes ensures LikeOk(db', db'.likes[id]) {
      assert LikeOk(db, db.likes[id]);
    }
    forall p | p in db'.matches ensures MatchOk(db', p, db'.matches[p]) {
      assert MatchOk(db, p, db.matches[p]);
    }
    assert MatchedOk(db');
  }

  /** Counterpart likes of the user's matches point at the user, so no match that stays
      names one of them. */
  lemma CounterpartPointsAtUser(db: Db, user: UserId, id: LikeId)
    requires MatchesOk(db) && IsCounterpart(db, user, id)
    ensures id in db.likes && db.likes[id].sender != user && Owner(db, db.likes[id].target) == Some(user)
  {
    var p :| p in db.matches && Involves(p, user)
             && id == (if p.one == user then db.matches[p].likeTwo else db.matches[p].likeOne);
    assert MatchOk(db, p, db.matches[p]);
  }

  lemma DeleteAccountKeepsInv(db: Db, user: UserId)
    requires Inv(db)
    ensures Inv(DeleteAccount(db, user))
  {
    if user in db.users {
      DeletionKeepsLikes(db, user);
      DeletionKeepsMatches(db, user);
      DeletionKeepsMatched(db, user);
    }
  }

  lemma DeletionKeepsLikes(db: Db, user: UserId)
    requires Inv(db) && user in db.users
    ensures var db' := DeleteAccount(db, user); LikesOk(db') && LikesUnique(db') && IdentitiesOk(db')
  {
    var db' := DeleteAccount(db, user);
    forall id | id in db'.likes ensures LikeOk(db', db'.likes[id]) {
      assert LikeOk(db, db.likes[id]);
    }
  }

  /** A like of a match that stays is not voided: a counterpart points at the user. */
  lemma DeletionSparesLike(db: Db, user: UserId, id: LikeId, from: UserId, to: UserId)
    requires MatchesOk(db) && user in db.users && Sends(db, id, from, to) && from != user && to != user
    ensures Sends(DeleteAccount(db, user), id, from, to) && DeleteAccount(db, user).likes[id] == db.likes[id]
  {
    if IsCounterpart(db, user, id) {
      CounterpartPointsAtUser(db, user, id);
    }
  }

  lemma DeletionKeepsMatches(db: Db, user: UserId)
    requires Inv(db) && user in db.users
    ensures MatchesOk(DeleteAccount(db, user))
  {
    var db' := DeleteAccount(db, user);
    forall p | p in db'.matches ensures MatchOk(db', p, db'.matches[p]) {
      var m := db.matches[p];
      assert MatchOk(db, p, m) && !Involves(p, user);
      DeletionSparesLike(db, user, m.likeOne, p.one, p.two);
      DeletionSparesLike(db, user, m.likeTwo, p.two, p.one);
    }
  }

  lemma DeletionKeepsMatched(db: Db, user: UserId)
    requires Inv(db) && user in db.users
    ensures MatchedOk(DeleteAccount(db, user))
  {
    var db' := DeleteAccount(db, user);
    forall id | id in db'.likes && db'.likes[id].status.Matched?
      ensures var owner := Owner(db', db'.likes[id].target);
              owner.Some? && NamedBy(db', Sorted(db'.likes[id].sender, owner.value), id)
    {
      var p := Sorted(db.likes[id].sender, Owner(db, db.likes[id].target).value);
      assert NamedBy(db, p, id);
      assert MatchOk(db, p, db.matches[p]);
      assert Involves(p, user) ==> IsCounterpart(db, user, id);
    }
  }
}
