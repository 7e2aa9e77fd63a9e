/** The expiry fan-out: a cursor loop that publishes the affected users in batches, and
    what the worker leaves behind however those batches are delivered. */
module ExpiryFanOut {
  import opened Prelude
  import opened CreditLedger
  import opened CreditViews
  import opened CreditsService

  // ---- The paged query ----

  lemma {:induction false} FindLeast(s: set<UserId>) returns (least: UserId)
    requires s != {}
    ensures least in s && forall x :: x in s ==> least <= x
  {
    var x :| x in s;
    if s == {x} {
      least := x;
    } else {
      var other := FindLeast(s - {x});
      least := Min(x, other);
      forall y | y in s ensures least <= y {
        assert y == x || y in s - {x};
      }
    }
  }

  lemma LeastExists(s: set<UserId>)
    requires s != {}
    ensures exists least :: least in s && forall x :: x in s ==> least <= x
  {
    var least := FindLeast(s);
  }

  function Least(s: set<UserId>): (least: UserId)
    requires s != {}
    ensures least in s && forall x :: x in s ==> least <= x
  {
    LeastExists(s);
    var least :| least in s && forall x :: x in s ==> least <= x;
    least
  }

  /** The users of a set in ascending order. */
  function Ascending(s: set<UserId>): seq<UserId> {
    if s == {} then [] else [Least(s)] + Ascending(s - {Least(s)})
  }

  function Beyond(s: set<UserId>, cursor: Option<UserId>): set<UserId> {
    match cursor
    case None => s
    case Some(c) => set u | u in s && u > c
  }

  /** The users holding a CREDIT row that `selects`. */
  function UsersWith(ledgers: Ledgers, selects: Row -> bool): set<UserId> {
    set u | u in ledgers && exists i :: 0 <= i < |ledgers[u]| && IsCredit(ledgers[u][i]) && selects(ledgers[u][i])
  }

  /** One page: distinct users beyond the cursor, ascending, at most `take` of them. */
  function Page(ledgers: Ledgers, selects: Row -> bool, cursor: Option<UserId>, take: nat): seq<UserId> {
    var all := Ascending(Beyond(UsersWith(ledgers, selects), cursor));
    if |all| <= take then all else all[..take]
  }

  function Flatten(batches: seq<seq<UserId>>): seq<UserId> {
    if batches == [] then [] else batches[0] + Flatten(batches[1..])
  }

  ghost predicate StrictlyAscending(s: seq<UserId>) {
    forall i, j :: 0 <= i < j < |s| ==> s[i] < s[j]
  }

  lemma AscendingUnfolds(s: set<UserId>)
    requires s != {}
    ensures var least := Least(s); Ascending(s) == [least] + Ascending(s - {least}) && least in s && least !in s - {least}
  {
  }

  lemma {:induction false} AscendingMembers(s: set<UserId>, u: UserId)
    ensures u in Ascending(s) <==> u in s
    decreases s
  {
    if s != {} {
      AscendingUnfolds(s);
      AscendingMembers(s - {Least(s)}, u);
    }
  }

  lemma {:induction false} AscendingCount(s: set<UserId>)
    ensures |Ascending(s)| == |s|
    decreases s
  {
    if s != {} {
      AscendingUnfolds(s);
      AscendingCount(s - {Least(s)});
    }
  }

  lemma {:induction false} AscendingSorted(s: set<UserId>)
    ensures StrictlyAscending(Ascending(s))
    decreases s
  {
    if s != {} {
      var least := Least(s);
      var rest := Ascending(s - {least});
      AscendingUnfolds(s);
      AscendingSorted(s - {least});
      forall i | 0 <= i < |rest| ensures least < rest[i] {
        AscendingMembers(s - {least}, rest[i]);
        assert rest[i] in rest;
      }
    }
  }

  lemma AscendingFacts(s: set<UserId>)
    ensures StrictlyAscending(Ascending(s))
    ensures forall u :: u in Ascending(s) <==> u in s
    ensures |Ascending(s)| == |s|
  {
    AscendingSorted(s);
    AscendingCount(s);
    forall u ensures u in Ascending(s) <==> u in s {
      AscendingMembers(s, u);
    }
  }

  lemma BeyondLeast(s: set<UserId>)
    requires s != {}
    ensures Beyond(s, Some(Least(s))) == s - {Least(s)}
  {
  }

  lemma BeyondOther(s: set<UserId>, last: UserId)
    requires s != {} && last in s
    ensures Beyond(s, Some(last)) == Beyond(s - {Least(s)}, Some(last))
  {
  }

  /** Users beyond the last one of a page are the ones the page left over. */
  lemma {:induction false} AscendingRest(s: set<UserId>, k: nat)
    requires 0 < k <= |Ascending(s)|
    ensures Ascending(Beyond(s, Some(Ascending(s)[k - 1]))) == Ascending(s)[k..]
    decreases k
  {
    assert s != {};
    var least := Least(s);
    var tail := Ascending(s - {least});
    AscendingUnfolds(s);
    if k == 1 {
      BeyondLeast(s);
    } else {
      AscendingRest(s - {least}, k - 1);
      AscendingMembers(s, Ascending(s)[k - 1]);
      BeyondOther(s, Ascending(s)[k - 1]);
      assert Ascending(s)[k..] == tail[k - 1..];
    }
  }

  lemma {:induction false} FlattenAppend(batches: seq<seq<UserId>>, last: seq<UserId>)
    ensures Flatten(batches + [last]) == Flatten(batches) + last
  {
    if batches == [] {
      assert batches + [last] == [last];
      assert [last][1..] == [];
    } else {
      assert (batches + [last])[1..] == batches[1..] + [last];
      FlattenAppend(batches[1..], last);
    }
  }

  /** All batches but the last are full, and none is empty. */
  ghost predicate WellFilled(batches: seq<seq<UserId>>, batchSize: nat) {
    && (forall i :: 0 <= i < |batches| ==> 0 < |batches[i]| <= batchSize)
    && (forall i :: 0 <= i < |batches| - 1 ==> |batches[i]| == batchSize)
  }

  ghost predicate AllFull(batches: seq<seq<UserId>>, batchSize: nat) {
    forall i :: 0 <= i < |batches| ==> |batches[i]| == batchSize
  }

  /** What was published and what lies beyond the cursor make up all the users, in order. */
  ghost predicate Covers(published: seq<seq<UserId>>, users: set<UserId>, cursor: Option<UserId>) {
    Flatten(published) + Ascending(Beyond(users, cursor)) == Ascending(users)
  }

  lemma PublishStep(published: seq<seq<UserId>>, users: set<UserId>, cursor: Option<UserId>, batchSize: nat, rows: seq<UserId>)
    requires Covers(published, users, cursor) && AllFull(published, batchSize) && 0 < |rows| <= batchSize
    requires Ascending(Beyond(users, cursor)) == rows + Ascending(Beyond(users, Some(rows[|rows| - 1])))
    ensures Covers(published + [rows], users, Some(rows[|rows| - 1]))
    ensures WellFilled(published + [rows], batchSize)
    ensures |rows| == batchSize ==> AllFull(published + [rows], batchSize)
    ensures |Flatten(published + [rows])| == |Flatten(published)| + |rows|
  {
    FlattenAppend(published, rows);
  }

  /** The loop shared by the expiry and the warning coordinators. It terminates, and for
      a positive batch size it publishes exactly the selected users, ascending, once. */
  method FanOut(ledgers: Ledgers, selects: Row -> bool, batchSize: nat)
    returns (published: seq<seq<UserId>>, batchesPublished: nat, totalUsersEnqueued: nat)
    ensures batchSize > 0 ==> Flatten(published) == Ascending(UsersWith(ledgers, selects))
    ensures batchSize > 0 ==> WellFilled(published, batchSize)
    ensures batchSize == 0 ==> published == []
    ensures batchesPublished == |published|
    ensures totalUsersEnqueued == |Flatten(published)|
  {
    ghost var users := UsersWith(ledgers, selects);
    var cursor: Option<UserId> := None;
    var hasMore := true;
    published, batchesPublished, totalUsersEnqueued := [], 0, 0;
    while hasMore
      invariant batchesPublished == |published| && totalUsersEnqueued == |Flatten(published)|
      invariant Covers(published, users, cursor)
      invariant batchSize > 0 && !hasMore ==> Ascending(Beyond(users, cursor)) == []
      invariant WellFilled(published, batchSize)
      invariant hasMore ==> AllFull(published, batchSize)
      invariant batchSize == 0 ==> published == []
      decreases hasMore, |Beyond(users, cursor)|
    {
      var rows := Page(ledgers, selects, cursor, batchSize);
      if |rows| == 0 {
        hasMore := false;
        break;
      }
      PageStep(users, cursor, batchSize, rows);
      PublishStep(published, users, cursor, batchSize, rows);
      published := published + [rows];
      cursor := Some(rows[|rows| - 1]);
      batchesPublished := batchesPublished + 1;
      totalUsersEnqueued := totalUsersEnqueued + |rows|;
      if |rows| < batchSize {
        hasMore := false;
      }
    }
  }

  /** A page and what lies beyond its last user make up what lay beyond the old cursor. */
  lemma PageStep(users: set<UserId>, cursor: Option<UserId>, take: nat, rows: seq<UserId>)
    requires var all := Ascending(Beyond(users, cursor)); rows == if |all| <= take then all else all[..take]
    requires rows != []
    ensures var rest := Beyond(users, Some(rows[|rows| - 1]));
            && Ascending(Beyond(users, cursor)) == rows + Ascending(rest)
            && |rest| < |Beyond(users, cursor)|
            && (|rows| < take ==> Ascending(rest) == [])
  {
    var left := Beyond(users, cursor);
    var all := Ascending(left);
    var last := rows[|rows| - 1];
    assert rows == all[..|rows|] && last == all[|rows| - 1];
    assert all == rows + all[|rows|..];
    AscendingRest(left, |rows|);
    assert last in left by {
      AscendingFacts(left);
      assert last in all;
    }
    PagesNest(users, cursor, last);
    assert |left| == |all| by {
      AscendingFacts(left);
    }
    assert |Beyond(users, Some(last))| == |all[|rows|..]| by {
      AscendingFacts(Beyond(users, Some(last)));
    }
  }

  lemma PagesNest(users: set<UserId>, cursor: Option<UserId>, last: UserId)
    requires last in Beyond(users, cursor)
    ensures Beyond(Beyond(users, cursor), Some(last)) == Beyond(users, Some(last))
  {
  }

  /** The published users are ascending, each once, and are those holding a CREDIT row that
      `picks` it. */
  ghost predicate PublishesHolders(ledgers: Ledgers, published: seq<seq<UserId>>, picks: Row -> bool) {
    && StrictlyAscending(Flatten(published))
    && forall u :: u in Flatten(published)
              <==> u in ledgers && exists i :: 0 <= i < |ledgers[u]| && ledgers[u][i].kind.Credit? && picks(ledgers[u][i])
  }

  lemma HoldersArePublished(ledgers: Ledgers, published: seq<seq<UserId>>, selects: Row -> bool, picks: Row -> bool)
    requires Flatten(published) == Ascending(UsersWith(ledgers, selects))
    requires forall r: Row :: r.kind.Credit? ==> (selects(r) <==> picks(r))
    ensures PublishesHolders(ledgers, published, picks)
  {
    AscendingFacts(UsersWith(ledgers, selects));
    forall u ensures u in Flatten(published)
              <==> u in ledgers && exists i :: 0 <= i < |ledgers[u]| && ledgers[u][i].kind.Credit? && picks(ledgers[u][i])
    {
      assert u in Flatten(published) <==> u in UsersWith(ledgers, selects);
      if u in ledgers && exists i :: 0 <= i < |ledgers[u]| && ledgers[u][i].kind.Credit? && picks(ledgers[u][i]) {
        var i :| 0 <= i < |ledgers[u]| && ledgers[u][i].kind.Credit? && picks(ledgers[u][i]);
        assert IsCredit(ledgers[u][i]) && selects(ledgers[u][i]);
      }
    }
  }

  /** The expiry coordinator. */
  method ExpireCreditBundles(ledgers: Ledgers, batchSize: nat, asOf: int)
    returns (published: seq<seq<UserId>>, batchesPublished: nat, totalUsersEnqueued: nat)
    ensures batchSize > 0 ==> Flatten(published) == Ascending(UsersWith(ledgers, (r: Row) => HasLapsed(r, asOf)))
    ensures batchSize > 0 ==> WellFilled(published, batchSize)
    ensures batchesPublished == |published| && totalUsersEnqueued == |Flatten(published)|
    ensures batchSize > 0 ==> PublishesHolders(ledgers, published, (r: Row) => r.expiresAt.Some? && r.expiresAt.value <= asOf)
  {
    published, batchesPublished, totalUsersEnqueued := FanOut(ledgers, (r: Row) => HasLapsed(r, asOf), batchSize);
    if batchSize > 0 {
      HoldersArePublished(ledgers, published, (r: Row) => HasLapsed(r, asOf),
                          (r: Row) => r.expiresAt.Some? && r.expiresAt.value <= asOf);
    }
  }

  /** The bundles the warning coordinator looks for: six to seven days before they lapse. */
  predicate InWarningWindow(r: Row, asOf: int) {
    r.expiresAt.Some? && asOf + 6 * DAY <= r.expiresAt.value < asOf + 7 * DAY
  }

  /** The warning coordinator. */
  method WarnExpiringCreditBundles(ledgers: Ledgers, batchSize: nat, asOf: int)
    returns (published: seq<seq<UserId>>, batchesPublished: nat, totalUsersEnqueued: nat)
    ensures batchSize > 0 ==> Flatten(published) == Ascending(UsersWith(ledgers, (r: Row) => InWarningWindow(r, asOf)))
    ensures batchSize > 0 ==> WellFilled(published, batchSize)
    ensures batchesPublished == |published| && totalUsersEnqueued == |Flatten(published)|
    ensures batchSize > 0 ==>
      PublishesHolders(ledgers, published, (r: Row) => r.expiresAt.Some? && 6 * DAY <= r.expiresAt.value - asOf < 7 * DAY)
  {
    published, batchesPublished, totalUsersEnqueued := FanOut(ledgers, (r: Row) => InWarningWindow(r, asOf), batchSize);
    if batchSize > 0 {
      HoldersArePublished(ledgers, published, (r: Row) => InWarningWindow(r, asOf),
                          (r: Row) => r.expiresAt.Some? && 6 * DAY <= r.expiresAt.value - asOf < 7 * DAY);
    }
  }

  /** Run once a day, whatever the first day, the windows tile the days: a dated bundle falls
      into the window of exactly one run. */
  lemma OneDailyWindow(expiresAt: int, first: int)
    ensures exists k :: WindowOf(first, k, expiresAt)
    ensures forall j, k :: WindowOf(first, j, expiresAt) && WindowOf(first, k, expiresAt) ==> j == k
  {
    var k := (expiresAt - 6 * DAY - first) / DAY;
    assert WindowOf(first, k, expiresAt);
  }

  predicate WindowOf(first: int, k: int, expiresAt: int) {
    InWarningWindow(Row(0, Credit, 0, Purchase, None, Some(expiresAt), 0), first + k * DAY)
  }

  // ---- Delivery ----

  lemma ExpireUserFacts(ledgers: Ledgers, user: UserId, asOf: int)
    ensures var ledgers' := ExpireUser(ledgers, user, asOf);
            && ledgers'.Keys == ledgers.Keys
            && RowsOf(ledgers', user) == Expire(RowsOf(ledgers, user), asOf)
            && forall u :: u != user ==> RowsOf(ledgers', u) == RowsOf(ledgers, u)
  {
    var rows := RowsOf(ledgers, user);
    if user !in ledgers {
      assert Queue([]) == [];
    }
    if ToWriteOff(rows, asOf) == [] {
      assert rows + [] == rows;
    }
  }

  /** Whatever is delivered, in whatever order and however often, each delivered user is
      expired once and nobody else is touched. */
  lemma {:induction false} DeliveryIsPointwise(ledgers: Ledgers, users: seq<UserId>, asOf: int)
    ensures var final := ExpireUsers(ledgers, users, asOf);
            && final.Keys == ledgers.Keys
            && forall u :: RowsOf(final, u)
                 == if u in users then Expire(RowsOf(ledgers, u), asOf) else RowsOf(ledgers, u)
    decreases |users|
  {
    if users != [] {
      var next := ExpireUser(ledgers, users[0], asOf);
      ExpireUserFacts(ledgers, users[0], asOf);
      DeliveryIsPointwise(next, users[1..], asOf);
      var final := ExpireUsers(ledgers, users, asOf);
      forall u ensures RowsOf(final, u) == if u in users then Expire(RowsOf(ledgers, u), asOf) else RowsOf(ledgers, u) {
        if u == users[0] && u in users[1..] {
          ExpireAgain(RowsOf(ledgers, u), asOf, asOf);
        }
      }
    }
  }

  /** Two deliveries that reach the same users leave the same ledgers. */
  lemma DeliveryOrderIrrelevant(ledgers: Ledgers, a: seq<UserId>, b: seq<UserId>, asOf: int)
    requires forall u :: u in a <==> u in b
    ensures ExpireUsers(ledgers, a, asOf) == ExpireUsers(ledgers, b, asOf)
  {
    DeliveryIsPointwise(ledgers, a, asOf);
    DeliveryIsPointwise(ledgers, b, asOf);
    SameRows(ExpireUsers(ledgers, a, asOf), ExpireUsers(ledgers, b, asOf));
  }

  lemma SameRows(x: Ledgers, y: Ledgers)
    requires x.Keys == y.Keys && forall u :: RowsOf(x, u) == RowsOf(y, u)
    ensures x == y
  {
    forall u | u in x ensures x[u] == y[u] {
      assert RowsOf(x, u) == RowsOf(y, u);
    }
  }

  lemma {:induction false} FlattenMembers(batches: seq<seq<UserId>>)
    ensures forall u :: u in Flatten(batches) <==> exists i :: 0 <= i < |batches| && u in batches[i]
  {
    if batches != [] {
      FlattenMembers(batches[1..]);
      forall u ensures u in Flatten(batches) <==> exists i :: 0 <= i < |batches| && u in batches[i] {
        if u in Flatten(batches[1..]) {
          var i :| 0 <= i < |batches[1..]| && u in batches[1..][i];
          assert u in batches[i + 1];
        }
        if i :| 0 <= i < |batches| && u in batches[i] {
          assert i > 0 ==> u in batches[1..][i - 1];
        }
      }
    }
  }

  /** Deliver each published batch at least once, in any order: the ledgers end as if
      every affected user had been expired once, and no lapsed bundle of any user holds
      anything under the worker's allocation. */
  lemma FanOutSettlesEveryone(ledgers: Ledgers, published: seq<seq<UserId>>, delivered: seq<seq<UserId>>, asOf: int)
    requires Flatten(published) == Ascending(UsersWith(ledgers, (r: Row) => HasLapsed(r, asOf)))
    requires forall b :: b in delivered <==> b in published
    ensures var final := ExpireUsers(ledgers, Flatten(delivered), asOf);
            && final == ExpireUsers(ledgers, Flatten(published), asOf)
            && forall u :: ToWriteOff(RowsOf(final, u), asOf) == []
  {
    FlattenMembers(published);
    FlattenMembers(delivered);
    forall u ensures u in Flatten(delivered) <==> u in Flatten(published) {
      if i :| 0 <= i < |delivered| && u in delivered[i] {
        assert delivered[i] in published;
        var j :| 0 <= j < |published| && published[j] == delivered[i];
        assert u in published[j];
      }
      if i :| 0 <= i < |published| && u in published[i] {
        assert published[i] in delivered;
        var j :| 0 <= j < |delivered| && delivered[j] == published[i];
        assert u in delivered[j];
      }
    }
    DeliveryOrderIrrelevant(ledgers, Flatten(delivered), Flatten(published), asOf);
    DeliveryIsPointwise(ledgers, Flatten(published), asOf);
    var lapsed := (r: Row) => HasLapsed(r, asOf);
    AscendingFacts(UsersWith(ledgers, lapsed));
    forall u ensures ToWriteOff(RowsOf(ExpireUsers(ledgers, Flatten(published), asOf), u), asOf) == [] {
      var rows := RowsOf(ledgers, u);
      if u in UsersWith(ledgers, lapsed) {
        ExpireSums(rows, asOf);
      } else {
        NobodyLapsed(rows, asOf);
      }
    }
  }

  lemma NobodyLapsed(rows: seq<Row>, asOf: int)
    requires forall i :: 0 <= i < |rows| && IsCredit(rows[i]) ==> !HasLapsed(rows[i], asOf)
    ensures ToWriteOff(rows, asOf) == []
  {
    QueueFacts(rows, asOf);
    AllocateCovers(Queue(rows), Debited(rows));
    var shares := Allocate(Queue(rows), Debited(rows));
    forall i | 0 <= i < |shares| ensures !HasLapsed(shares[i].credit, asOf) {
      assert shares[i].credit in Queue(rows);
    }
    NoLeftovers(shares, asOf);
  }
}
