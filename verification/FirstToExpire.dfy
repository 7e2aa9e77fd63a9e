/** What draining first-to-expire means, said of rows and amounts alone: which bundle comes
    before which, who pays first, and what the reader and the worker must then answer. */
module FirstToExpire {
  import opened Prelude
  import opened CreditLedger
  import opened CreditViews

  /** A bundle comes before another if it lapses earlier, or lapses and the other never does,
      or both lapse together, or never, and it was created earlier. */
  predicate Precedes(a: Row, b: Row) {
    || (a.expiresAt.Some? && b.expiresAt.Some? && a.expiresAt.value < b.expiresAt.value)
    || (a.expiresAt.Some? && b.expiresAt.None?)
    || (a.expiresAt == b.expiresAt && a.createdAt < b.createdAt)
  }

  function Bundles(shares: seq<Share>): seq<Row> {
    if shares == [] then [] else [shares[0].credit] + Bundles(shares[1..])
  }

  /** What the shares have lost altogether. */
  function Drained(shares: seq<Share>): int {
    if shares == [] then 0 else shares[0].credit.amount - shares[0].unused + Drained(shares[1..])
  }

  /** No later share precedes an earlier one. */
  ghost predicate InOrder(shares: seq<Share>) {
    forall i, j :: 0 <= i < j < |shares| ==> !Precedes(shares[j].credit, shares[i].credit)
  }

  /** A share that has lost anything stands behind used-up ones only. */
  ghost predicate EarlierFirst(shares: seq<Share>) {
    forall i, j :: 0 <= i < j < |shares| && shares[j].unused < shares[j].credit.amount ==> shares[i].unused == 0
  }

  /** The shares are those of the ledger's bundles, in order; they have lost the debits, or
      everything, and nothing was taken from one before those ahead of it were used up. */
  ghost predicate IsAllocation(rows: seq<Row>, shares: seq<Share>, debits: nat) {
    && multiset(Bundles(shares)) == multiset(Where(rows, (r: Row) => r.kind.Credit?))
    && (forall i :: 0 <= i < |shares| ==> shares[i].unused <= shares[i].credit.amount)
    && Drained(shares) == Min(debits, Granted(rows))
    && InOrder(shares)
    && EarlierFirst(shares)
  }

  /** `items` are the shares with something left that have not lapsed, in order. */
  ghost predicate AreLive(shares: seq<Share>, items: seq<Share>, now: int) {
    && (forall x :: x in items <==> x in shares && x.unused > 0 && (x.credit.expiresAt.None? || now < x.credit.expiresAt.value))
    && InOrder(items)
  }

  /** `left` are the shares with something left that have lapsed, in order. */
  ghost predicate AreLeftOver(shares: seq<Share>, left: seq<Share>, asOf: int) {
    && (forall x :: x in left <==> x in shares && x.unused > 0 && x.credit.expiresAt.Some? && x.credit.expiresAt.value <= asOf)
    && InOrder(left)
  }

  /** What the reader must list: genuine spends drain the bundles first-to-expire. */
  ghost predicate ReaderMayList(rows: seq<Row>, items: seq<Share>, now: int) {
    exists shares :: IsAllocation(rows, shares, Spent(rows)) && AreLive(shares, items, now)
  }

  /** What the worker must insert: one EXPIRED debit for each lapsed bundle with something
      left once all debits, its own earlier ones included, have drained the bundles. */
  ghost predicate WorkerMayInsert(rows: seq<Row>, toInsert: seq<Row>, asOf: int) {
    exists shares, left :: IsAllocation(rows, shares, Debited(rows)) && AreLeftOver(shares, left, asOf)
                           && WritesOff(toInsert, left, |rows|, asOf)
  }

  ghost predicate WritesOff(toInsert: seq<Row>, left: seq<Share>, firstId: nat, asOf: int) {
    && |toInsert| == |left|
    && forall k :: 0 <= k < |left| ==>
         toInsert[k] == Row(firstId + k, Debit, left[k].unused, Expired, Some(left[k].credit.id), None, asOf)
  }

  /** The share has something left and lapses after `asOf`, by `end` at the latest. */
  ghost predicate IsDue(x: Share, asOf: int, end: int) {
    x.unused > 0 && x.credit.expiresAt.Some? && asOf < x.credit.expiresAt.value <= end
  }

  /** `found` is a due share that no other due share precedes, or there is none. */
  ghost predicate IsFirstDue(shares: seq<Share>, found: Option<Share>, asOf: int, end: int) {
    match found
    case None => forall x :: x in shares ==> !IsDue(x, asOf, end)
    case Some(y) => y in shares && IsDue(y, asOf, end) && forall x :: x in shares && IsDue(x, asOf, end) ==> !Precedes(x.credit, y.credit)
  }

  /** What the warner must pick once all debits have drained the bundles. */
  ghost predicate WarnerMayPick(rows: seq<Row>, found: Option<Share>, asOf: int, end: int) {
    exists shares :: IsAllocation(rows, shares, Debited(rows)) && IsFirstDue(shares, found, asOf, end)
  }

  // ---- The allocation is one ----

  lemma {:induction false} AllocateDrains(q: seq<Row>, debits: nat)
    requires forall r :: r in q ==> IsCredit(r)
    ensures Bundles(Allocate(q, debits)) == q && Drained(Allocate(q, debits)) == Min(debits, Granted(q))
  {
    if q != [] {
      var used := Min(debits, q[0].amount);
      assert q[0] in q;
      AllocateHead(q, debits);
      AllocateDrains(q[1..], debits - used);
      assert Allocate(q, debits)[1..] == Allocate(q[1..], debits - used);
    }
  }

  lemma {:induction false} AllocateEarlierFirst(q: seq<Row>, debits: nat)
    ensures EarlierFirst(Allocate(q, debits))
  {
    if q != [] {
      var used := Min(debits, q[0].amount);
      var shares, rest := Allocate(q, debits), Allocate(q[1..], debits - used);
      AllocateHead(q, debits);
      AllocateEarlierFirst(q[1..], debits - used);
      if used == debits {
        UndrainedAreWhole(q[1..]);
      }
      forall i, j | 0 <= i < j < |shares| && shares[j].unused < shares[j].credit.amount ensures shares[i].unused == 0 {
        assert shares[j] == rest[j - 1] && rest[j - 1] in rest;
        assert i > 0 ==> shares[i] == rest[i - 1];
      }
    }
  }

  lemma QueueOrderMeansInOrder(q: seq<Row>, debits: nat)
    requires Ordered(q)
    ensures InOrder(Allocate(q, debits))
  {
    AllocateCovers(q, debits);
    var shares := Allocate(q, debits);
    forall i, j | 0 <= i < j < |shares| ensures !Precedes(shares[j].credit, shares[i].credit) {
      assert NotAfter(q[i], q[j]);
    }
  }

  lemma {:induction false} WhereCredit(rows: seq<Row>)
    ensures Where(rows, (r: Row) => r.kind.Credit?) == Where(rows, IsCredit)
  {
    if rows != [] {
      WhereCredit(rows[1..]);
    }
  }

  lemma QueueAllocation(rows: seq<Row>, debits: nat)
    ensures IsAllocation(rows, Allocate(Queue(rows), debits), debits)
  {
    QueueFacts(rows, 0);
    SortSorts(Where(rows, IsCredit));
    WhereCredit(rows);
    AllocateDrains(Queue(rows), debits);
    AllocateEarlierFirst(Queue(rows), debits);
    AllocateCovers(Queue(rows), debits);
    QueueOrderMeansInOrder(Queue(rows), debits);
  }

  // ---- What is picked from it ----

  lemma InOrderTail(shares: seq<Share>)
    requires InOrder(shares) && shares != []
    ensures InOrder(shares[1..]) && forall x :: x in shares[1..] ==> !Precedes(x.credit, shares[0].credit)
  {
    forall i, j | 0 <= i < j < |shares[1..]| ensures !Precedes(shares[1..][j].credit, shares[1..][i].credit) {
      assert !Precedes(shares[j + 1].credit, shares[i + 1].credit);
    }
    forall x | x in shares[1..] ensures !Precedes(x.credit, shares[0].credit) {
      var k :| 0 <= k < |shares[1..]| && shares[1..][k] == x;
      assert !Precedes(shares[k + 1].credit, shares[0].credit);
    }
  }

  lemma {:induction false} BreakdownIsLive(shares: seq<Share>, now: int)
    requires InOrder(shares)
    ensures AreLive(shares, Breakdown(shares, now), now)
  {
    if shares != [] {
      InOrderTail(shares);
      BreakdownIsLive(shares[1..], now);
      var rest := Breakdown(shares[1..], now);
      assert forall k :: 0 <= k < |rest| ==> rest[k] in rest;
    }
  }

  lemma {:induction false} LeftoversAreLeftOver(shares: seq<Share>, asOf: int)
    requires InOrder(shares)
    ensures AreLeftOver(shares, Leftovers(shares, asOf), asOf)
  {
    if shares != [] {
      InOrderTail(shares);
      LeftoversAreLeftOver(shares[1..], asOf);
      var rest := Leftovers(shares[1..], asOf);
      assert forall k :: 0 <= k < |rest| ==> rest[k] in rest;
    }
  }

  /** The reader lists what draining genuine spends first-to-expire leaves of the live bundles. */
  lemma ReaderListsFirstToExpire(rows: seq<Row>, now: int)
    ensures ReaderMayList(rows, ExpiringCredits(rows, now), now)
  {
    QueueAllocation(rows, Spent(rows));
    BreakdownIsLive(Allocate(Queue(rows), Spent(rows)), now);
  }

  /** The worker inserts what draining all debits first-to-expire leaves of the lapsed bundles. */
  lemma WorkerInsertsFirstToExpire(rows: seq<Row>, asOf: int)
    ensures WorkerMayInsert(rows, WriteOffRows(ToWriteOff(rows, asOf), asOf, |rows|), asOf)
  {
    var shares, left := Allocate(Queue(rows), Debited(rows)), ToWriteOff(rows, asOf);
    QueueAllocation(rows, Debited(rows));
    LeftoversAreLeftOver(shares, asOf);
    WriteOffFacts(left, asOf, |rows|);
    assert WritesOff(WriteOffRows(left, asOf, |rows|), left, |rows|, asOf);
  }

  /** Whatever allocation meets these terms, a bundle has lost something only if every bundle
      preceding it is used up. */
  lemma PrecedingAreUsedUp(rows: seq<Row>, shares: seq<Share>, debits: nat, i: nat, j: nat)
    requires IsAllocation(rows, shares, debits) && i < |shares| && j < |shares|
    requires Precedes(shares[i].credit, shares[j].credit) && shares[j].unused < shares[j].credit.amount
    ensures shares[i].unused == 0
  {
  }

  lemma {:induction false} FirstExpiringIsFirstDue(shares: seq<Share>, asOf: int, end: int)
    requires InOrder(shares)
    ensures IsFirstDue(shares, FirstExpiring(shares, asOf, end), asOf, end)
  {
    if shares != [] {
      InOrderTail(shares);
      FirstExpiringIsFirstDue(shares[1..], asOf, end);
      assert shares == [shares[0]] + shares[1..];
    }
  }

  /** The warner picks the first due bundle of draining all debits first-to-expire. */
  lemma WarnerPicksFirstDue(rows: seq<Row>, asOf: int, end: int)
    ensures WarnerMayPick(rows, WarningFor(rows, asOf, end), asOf, end)
  {
    var shares := Allocate(Queue(rows), Debited(rows));
    WarnerAgreesWithWorker(rows, asOf, end);
    QueueAllocation(rows, Debited(rows));
    FirstExpiringIsFirstDue(shares, asOf, end);
  }
}
