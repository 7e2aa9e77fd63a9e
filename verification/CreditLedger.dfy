/** The append-only credit ledger of one user, and the three views derived from it:
    the reader (balance and breakdown), the expiry worker and the expiry warner.

    A ledger is the sequence of its rows in insertion order; a row's `id` is its place
    in that sequence. All three views sort the CREDIT rows first-to-expire and drain a
    number of debits from them in that order; they differ in which debits they count. */
module CreditLedger {
  import opened Prelude

  datatype Kind = Credit | Debit

  datatype Source = Purchase | Bonus | Referral | LikeUsage | Admin | Expired | Subscription

  datatype Row = Row(id: nat, kind: Kind, amount: nat, source: Source, ref: Option<nat>,
                     expiresAt: Option<int>, createdAt: int)

  /** What one bundle still holds after the allocation reached it. */
  datatype Share = Share(credit: Row, unused: nat)

  // ---- Which rows count for what ----

  predicate IsCredit(r: Row) {
    r.kind.Credit?
  }

  /** A debit somebody really spent: EXPIRED rows only close the books on a bundle. */
  predicate IsSpend(r: Row) {
    r.kind.Debit? && r.source != Expired
  }

  predicate IsDebit(r: Row) {
    r.kind.Debit?
  }

  predicate IsExpiryRow(r: Row) {
    r.kind.Debit? && r.source == Expired
  }

  predicate HasLapsed(r: Row, t: int) {
    r.expiresAt.Some? && r.expiresAt.value <= t
  }

  function SumIf(rows: seq<Row>, p: Row -> bool): nat {
    if rows == [] then 0
    else (if p(rows[0]) then rows[0].amount else 0) + SumIf(rows[1..], p)
  }

  /** T: everything ever granted. */
  function Granted(rows: seq<Row>): nat {
    SumIf(rows, IsCredit)
  }

  /** X: what was granted in bundles that have lapsed by `t`. */
  function Lapsed(rows: seq<Row>, t: int): nat {
    SumIf(rows, (r: Row) => IsCredit(r) && HasLapsed(r, t))
  }

  /** D: everything really spent. */
  function Spent(rows: seq<Row>): nat {
    SumIf(rows, IsSpend)
  }

  /** Every debit, EXPIRED rows included: what the worker and the warner count. */
  function Debited(rows: seq<Row>): nat {
    SumIf(rows, IsDebit)
  }

  /** E: what the worker has written off. */
  function WrittenOff(rows: seq<Row>): nat {
    SumIf(rows, IsExpiryRow)
  }

  // ---- The first-to-expire order ----

  /** The comparator of the in-memory sort: earlier expiry first, permanent bundles
      last, earlier creation first among equals. */
  predicate NotAfter(a: Row, b: Row) {
    match (a.expiresAt, b.expiresAt)
    case (Some(x), Some(y)) => x < y || (x == y && a.createdAt <= b.createdAt)
    case (Some(_), None) => true
    case (None, Some(_)) => false
    case (None, None) => a.createdAt <= b.createdAt
  }

  function Insert(r: Row, sorted: seq<Row>): seq<Row> {
    if sorted == [] || NotAfter(r, sorted[0]) then [r] + sorted
    else [sorted[0]] + Insert(r, sorted[1..])
  }

  /** A stable sort by NotAfter. */
  function Sort(rows: seq<Row>): seq<Row> {
    if rows == [] then [] else Insert(rows[0], Sort(rows[1..]))
  }

  function Where(rows: seq<Row>, p: Row -> bool): seq<Row> {
    if rows == [] then []
    else (if p(rows[0]) then [rows[0]] else []) + Where(rows[1..], p)
  }

  /** The CREDIT rows, first to expire first. */
  function Queue(rows: seq<Row>): seq<Row> {
    Sort(Where(rows, IsCredit))
  }

  ghost predicate Ordered(q: seq<Row>) {
    forall i, j :: 0 <= i < j < |q| ==> NotAfter(q[i], q[j])
  }

  // ---- The allocation and the views over it ----

  /** Drain `debits` from the bundles in order. */
  function Allocate(q: seq<Row>, debits: nat): seq<Share> {
    if q == [] then []
    else
      var used := if debits >= q[0].amount then q[0].amount else debits;
      [Share(q[0], q[0].amount - used)] + Allocate(q[1..], debits - used)
  }

  function Spendable(shares: seq<Share>, now: int): nat {
    if shares == [] then 0
    else (if HasLapsed(shares[0].credit, now) then 0 else shares[0].unused) + Spendable(shares[1..], now)
  }

  function Breakdown(shares: seq<Share>, now: int): seq<Share> {
    if shares == [] then []
    else (if !HasLapsed(shares[0].credit, now) && shares[0].unused > 0 then [shares[0]] else [])
         + Breakdown(shares[1..], now)
  }

  function Leftovers(shares: seq<Share>, asOf: int): seq<Share> {
    if shares == [] then []
    else (if HasLapsed(shares[0].credit, asOf) && shares[0].unused > 0 then [shares[0]] else [])
         + Leftovers(shares[1..], asOf)
  }

  function FirstExpiring(shares: seq<Share>, asOf: int, end: int): Option<Share> {
    if shares == [] then None
    else if shares[0].credit.expiresAt.Some? && shares[0].credit.expiresAt.value > asOf
            && shares[0].credit.expiresAt.value <= end && shares[0].unused > 0
    then Some(shares[0])
    else FirstExpiring(shares[1..], asOf, end)
  }

  /** The reader's balance. */
  function Balance(rows: seq<Row>, now: int): nat {
    Spendable(Allocate(Queue(rows), Spent(rows)), now)
  }

  /** The reader's list of bundles with something left. */
  function ExpiringCredits(rows: seq<Row>, now: int): seq<Share> {
    Breakdown(Allocate(Queue(rows), Spent(rows)), now)
  }

  /** The worker's list of lapsed bundles to write off. */
  function ToWriteOff(rows: seq<Row>, asOf: int): seq<Share> {
    Leftovers(Allocate(Queue(rows), Debited(rows)), asOf)
  }

  function WriteOffRows(shares: seq<Share>, asOf: int, firstId: nat): seq<Row> {
    if shares == [] then []
    else [Row(firstId, Debit, shares[0].unused, Expired, Some(shares[0].credit.id), None, asOf)]
         + WriteOffRows(shares[1..], asOf, firstId + 1)
  }

  /** One expiry pass over one user's ledger. */
  function Expire(rows: seq<Row>, asOf: int): seq<Row> {
    rows + WriteOffRows(ToWriteOff(rows, asOf), asOf, |rows|)
  }

  /** The warner sees only bundles that carry an expiry date. */
  function IsDated(r: Row): bool {
    r.kind.Credit? && r.expiresAt.Some?
  }

  function WarningFor(rows: seq<Row>, asOf: int, end: int): Option<Share> {
    FirstExpiring(Allocate(Sort(Where(rows, IsDated)), Debited(rows)), asOf, end)
  }

  function Grant(rows: seq<Row>, amount: nat, source: Source, ref: Option<nat>, expiresAt: Option<int>, now: int): seq<Row> {
    rows + [Row(|rows|, Credit, amount, source, ref, expiresAt, now)]
  }

  /** Spend `amount` if the balance covers it. */
  function Consume(rows: seq<Row>, amount: nat, ref: Option<nat>, now: int): Option<seq<Row>> {
    if Balance(rows, now) < amount then None
    else Some(rows + [Row(|rows|, Debit, amount, LikeUsage, ref, None, now)])
  }

  // ---- Sums ----

  lemma {:induction false} SumIfAppend(a: seq<Row>, b: seq<Row>, p: Row -> bool)
    ensures SumIf(a + b, p) == SumIf(a, p) + SumIf(b, p)
  {
    if a == [] {
      assert a + b == b;
    } else {
      assert (a + b)[1..] == a[1..] + b;
      SumIfAppend(a[1..], b, p);
    }
  }

  function Drop(rows: seq<Row>, k: nat): seq<Row>
    requires k < |rows|
  {
    rows[..k] + rows[k + 1..]
  }

  lemma SumIfDrop(rows: seq<Row>, k: nat, p: Row -> bool)
    requires k < |rows|
    ensures SumIf(rows, p) == (if p(rows[k]) then rows[k].amount else 0) + SumIf(Drop(rows, k), p)
  {
    var front, mid, back := rows[..k], [rows[k]], rows[k + 1..];
    assert rows == front + (mid + back);
    SumIfAppend(front, mid + back, p);
    SumIfAppend(mid, back, p);
    SumIfAppend(front, back, p);
    assert mid[1..] == [];
    assert SumIf(mid, p) == if p(rows[k]) then rows[k].amount else 0;
  }

  lemma DropFromMultiset(rows: seq<Row>, k: nat)
    requires k < |rows|
    ensures multiset(Drop(rows, k)) == multiset(rows) - multiset{rows[k]}
  {
    assert rows == rows[..k] + ([rows[k]] + rows[k + 1..]);
  }

  /** Sums do not depend on the order in which the rows come back. */
  lemma {:induction false} SumIfPermuted(a: seq<Row>, b: seq<Row>, p: Row -> bool)
    requires multiset(a) == multiset(b)
    ensures SumIf(a, p) == SumIf(b, p)
    decreases |a|
  {
    if a == [] {
      assert |multiset(b)| == 0;
    } else {
      assert a[0] in multiset(b);
      var k :| 0 <= k < |b| && b[k] == a[0];
      SumIfDrop(a, 0, p);
      SumIfDrop(b, k, p);
      DropFromMultiset(a, 0);
      DropFromMultiset(b, k);
      SumIfPermuted(Drop(a, 0), Drop(b, k), p);
    }
  }

  lemma {:induction false} SumIfWhere(rows: seq<Row>, keep: Row -> bool, p: Row -> bool)
    requires forall r :: p(r) ==> keep(r)
    ensures SumIf(Where(rows, keep), p) == SumIf(rows, p)
  {
    if rows != [] {
      SumIfWhere(rows[1..], keep, p);
      var tail := Where(rows[1..], keep);
      assert ([rows[0]] + tail)[1..] == tail;
      assert [] + tail == tail;
    }
  }

  lemma {:induction false} SumIfSplit(rows: seq<Row>)
    ensures Debited(rows) == Spent(rows) + WrittenOff(rows)
  {
    if rows != [] {
      SumIfSplit(rows[1..]);
    }
  }

  lemma {:induction false} SumIfMonotone(rows: seq<Row>, p: Row -> bool, q: Row -> bool)
    requires forall r :: p(r) ==> q(r)
    ensures SumIf(rows, p) <= SumIf(rows, q)
  {
    if rows != [] {
      SumIfMonotone(rows[1..], p, q);
    }
  }

  lemma LapsedGrows(rows: seq<Row>, t: int, t': int)
    requires t <= t'
    ensures Lapsed(rows, t) <= Lapsed(rows, t') <= Granted(rows)
  {
    SumIfMonotone(rows, (r: Row) => IsCredit(r) && HasLapsed(r, t), (r: Row) => IsCredit(r) && HasLapsed(r, t'));
    SumIfMonotone(rows, (r: Row) => IsCredit(r) && HasLapsed(r, t'), IsCredit);
  }

  // ---- The sort ----

  lemma {:induction false} InsertAdds(r: Row, s: seq<Row>)
    ensures multiset(Insert(r, s)) == multiset(s) + multiset{r}
  {
    if s == [] || NotAfter(r, s[0]) {
    } else {
      InsertAdds(r, s[1..]);
      assert s == [s[0]] + s[1..];
    }
  }

  lemma {:induction false} InsertPlaces(r: Row, s: seq<Row>)
    requires Ordered(s)
    ensures Ordered(Insert(r, s))
  {
    if s == [] || NotAfter(r, s[0]) {
    } else {
      InsertPlaces(r, s[1..]);
      InsertAdds(r, s[1..]);
      var tail := Insert(r, s[1..]);
      forall i | 0 <= i < |tail| ensures NotAfter(s[0], tail[i]) {
        assert tail[i] in multiset(tail);
        assert tail[i] == r || tail[i] in s[1..];
      }
    }
  }

  lemma {:induction false} SortSorts(rows: seq<Row>)
    ensures Ordered(Sort(rows)) && multiset(Sort(rows)) == multiset(rows)
  {
    if rows != [] {
      SortSorts(rows[1..]);
      InsertPlaces(rows[0], Sort(rows[1..]));
      InsertAdds(rows[0], Sort(rows[1..]));
      assert rows == [rows[0]] + rows[1..];
    }
  }

  lemma {:induction false} WhereKeeps(rows: seq<Row>, p: Row -> bool)
    ensures forall r :: r in Where(rows, p) <==> r in rows && p(r)
  {
    if rows != [] {
      WhereKeeps(rows[1..], p);
    }
  }

  lemma {:induction false} WhereAppend(a: seq<Row>, b: seq<Row>, p: Row -> bool)
    ensures Where(a + b, p) == Where(a, p) + Where(b, p)
  {
    if a == [] {
      assert a + b == b;
    } else {
      var head, tail, rest := if p(a[0]) then [a[0]] else [], Where(a[1..], p), Where(b, p);
      WhereAppend(a[1..], b, p);
      assert (a + b)[0] == a[0] && (a + b)[1..] == a[1..] + b;
      assert Where(a + b, p) == head + (tail + rest);
      assert head + (tail + rest) == (head + tail) + rest;
    }
  }

  /** The queue is ordered, holds exactly the CREDIT rows, and keeps every sum over them. */
  lemma QueueFacts(rows: seq<Row>, t: int)
    ensures Ordered(Queue(rows))
    ensures forall r :: r in Queue(rows) <==> r in rows && IsCredit(r)
    ensures Granted(Queue(rows)) == Granted(rows)
    ensures Lapsed(Queue(rows), t) == Lapsed(rows, t)
  {
    var credits := Where(rows, IsCredit);
    SortSorts(credits);
    WhereKeeps(rows, IsCredit);
    forall r ensures r in Queue(rows) <==> r in rows && IsCredit(r) {
      assert r in Queue(rows) <==> r in multiset(Queue(rows));
      assert r in credits <==> r in multiset(credits);
    }
    SumIfPermuted(Queue(rows), credits, IsCredit);
    SumIfWhere(rows, IsCredit, IsCredit);
    var lapsed := (r: Row) => IsCredit(r) && HasLapsed(r, t);
    assert Lapsed(rows, t) == SumIf(rows, lapsed) && Lapsed(Queue(rows), t) == SumIf(Queue(rows), lapsed);
    SumIfPermuted(Queue(rows), credits, lapsed);
    SumIfWhere(rows, IsCredit, lapsed);
  }

  lemma {:induction false} WhereNone(rows: seq<Row>, p: Row -> bool)
    requires forall r :: r in rows ==> !p(r)
    ensures Where(rows, p) == []
  {
    if rows != [] {
      assert rows[0] in rows;
      WhereNone(rows[1..], p);
    }
  }

  /** Appending debits leaves the queue alone. */
  lemma {:induction false} QueueIgnoresDebits(rows: seq<Row>, debits: seq<Row>)
    requires forall r :: r in debits ==> IsDebit(r)
    ensures Queue(rows + debits) == Queue(rows)
  {
    WhereAppend(rows, debits, IsCredit);
    WhereKeeps(debits, IsCredit);
    assert Where(debits, IsCredit) == [] by {
      WhereNone(debits, IsCredit);
    }
    assert Where(rows, IsCredit) + [] == Where(rows, IsCredit);
  }

  lemma TwiceIn(s: seq<Row>, i: nat, j: nat)
    requires i < j < |s| && s[i] == s[j]
    ensures multiset(s)[s[i]] >= 2
  {
    assert s == s[..i] + [s[i]] + s[i + 1..j] + [s[j]] + s[j + 1..];
  }

  lemma {:induction false} WhereIdsAscend(rows: seq<Row>, p: Row -> bool)
    requires forall i, j :: 0 <= i < j < |rows| ==> rows[i].id < rows[j].id
    ensures forall i, j :: 0 <= i < j < |Where(rows, p)| ==> Where(rows, p)[i].id < Where(rows, p)[j].id
  {
    if rows != [] {
      WhereIdsAscend(rows[1..], p);
      WhereKeeps(rows[1..], p);
      var rest := Where(rows[1..], p);
      forall i | 0 <= i < |rest| ensures rows[0].id < rest[i].id {
        assert rest[i] in rest;
      }
    }
  }

  lemma {:induction false} AscendingIsDistinct(s: seq<Row>, r: Row)
    requires forall i, j :: 0 <= i < j < |s| ==> s[i].id < s[j].id
    ensures multiset(s)[r] <= 1
  {
    if s != [] {
      assert s == [s[0]] + s[1..];
      AscendingIsDistinct(s[1..], r);
      if s[0] == r && r in s[1..] {
        assert false;
      }
    }
  }

  /** Rows with ids of their own stay apart in the queue. */
  lemma QueueIdsDiffer(rows: seq<Row>)
    requires forall i :: 0 <= i < |rows| ==> rows[i].id == i
    ensures forall i, j :: 0 <= i < j < |Queue(rows)| ==> Queue(rows)[i].id != Queue(rows)[j].id
  {
    var credits := Where(rows, IsCredit);
    WhereIdsAscend(rows, IsCredit);
    SortSorts(credits);
    var q := Queue(rows);
    forall i, j | 0 <= i < j < |q| ensures q[i].id != q[j].id {
      if q[i].id == q[j].id {
        QueueFacts(rows, 0);
        assert q[i] in q && q[j] in q;
        assert q[i] == q[j];
        TwiceIn(q, i, j);
        assert multiset(credits)[q[i]] >= 2;
        AscendingIsDistinct(credits, q[i]);
      }
    }
  }

  /** In an ordered queue of bundles, an unlapsed head means nothing has lapsed. */
  lemma {:induction false} NothingLapsed(q: seq<Row>, t: int)
    requires Ordered(q) && q != [] && !HasLapsed(q[0], t)
    ensures Lapsed(q, t) == 0
    ensures forall i :: 0 <= i < |q| ==> !HasLapsed(q[i], t)
  {
    var lapsed := (r: Row) => IsCredit(r) && HasLapsed(r, t);
    assert Lapsed(q, t) == SumIf(q, lapsed) && Lapsed(q[1..], t) == SumIf(q[1..], lapsed);
    if |q| > 1 {
      assert NotAfter(q[0], q[1]);
      NothingLapsed(q[1..], t);
    }
  }
}
