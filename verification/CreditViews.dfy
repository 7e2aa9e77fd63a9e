/** What the reader, the expiry worker and the warner compute from a ledger, and exactly
    when they agree. T, X, D, E stand for Granted, Lapsed, Spent and WrittenOff. */
module CreditViews {
  import opened Prelude
  import opened CreditLedger

  // ---- The reader ----

  /** On an ordered queue the fold collapses to a closed form. */
  lemma {:induction false} SpendableClosed(q: seq<Row>, debits: nat, now: int)
    requires Ordered(q) && forall r :: r in q ==> IsCredit(r)
    ensures Spendable(Allocate(q, debits), now) == Max(0, Granted(q) - Max(debits, Lapsed(q, now)))
  {
    if q != [] {
      var used := Min(debits, q[0].amount);
      var rest := Allocate(q[1..], debits - used);
      assert Allocate(q, debits)[1..] == rest;
      SpendableClosed(q[1..], debits - used, now);
      assert q[0] in q;
      LapsedHead(q, now);
      LapsedGrows(q[1..], now, now);
      if !HasLapsed(q[0], now) {
        NothingLapsed(q, now);
      }
    }
  }

  lemma LapsedHead(q: seq<Row>, t: int)
    requires q != [] && IsCredit(q[0])
    ensures Lapsed(q, t) == (if HasLapsed(q[0], t) then q[0].amount else 0) + Lapsed(q[1..], t)
  {
    var lapsed := (r: Row) => IsCredit(r) && HasLapsed(r, t);
    assert Lapsed(q, t) == SumIf(q, lapsed) && Lapsed(q[1..], t) == SumIf(q[1..], lapsed);
  }

  /** The balance of every ledger at every time. */
  lemma BalanceClosed(rows: seq<Row>, now: int)
    ensures Balance(rows, now) == Max(0, Granted(rows) - Max(Spent(rows), Lapsed(rows, now)))
  {
    QueueFacts(rows, now);
    SpendableClosed(Queue(rows), Spent(rows), now);
  }

  /** The order in which the query returns rows, and how it breaks ties, do not matter. */
  lemma BalanceIgnoresOrder(rows: seq<Row>, rows': seq<Row>, now: int)
    requires multiset(rows) == multiset(rows')
    ensures Balance(rows, now) == Balance(rows', now)
  {
    BalanceClosed(rows, now);
    BalanceClosed(rows', now);
    var lapsed := (r: Row) => IsCredit(r) && HasLapsed(r, now);
    assert Lapsed(rows, now) == SumIf(rows, lapsed) && Lapsed(rows', now) == SumIf(rows', lapsed);
    SumIfPermuted(rows, rows', lapsed);
    SumIfPermuted(rows, rows', IsCredit);
    SumIfPermuted(rows, rows', IsSpend);
  }

  /** On a fixed ledger the balance never rises as time passes. */
  lemma BalanceNeverRises(rows: seq<Row>, now: int, later: int)
    requires now <= later
    ensures Balance(rows, later) <= Balance(rows, now)
  {
    BalanceClosed(rows, now);
    BalanceClosed(rows, later);
    LapsedGrows(rows, now, later);
  }

  function Remaining(items: seq<Share>): nat {
    if items == [] then 0 else items[0].unused + Remaining(items[1..])
  }

  lemma {:induction false} BreakdownTotal(shares: seq<Share>, now: int)
    ensures Remaining(Breakdown(shares, now)) == Spendable(shares, now)
  {
    if shares != [] {
      BreakdownTotal(shares[1..], now);
      var rest := Breakdown(shares[1..], now);
      assert ([shares[0]] + rest)[1..] == rest && [] + rest == rest;
    }
  }

  lemma {:induction false} BreakdownFrom(shares: seq<Share>, now: int)
    ensures forall x :: x in Breakdown(shares, now) ==> x in shares && !HasLapsed(x.credit, now) && x.unused > 0
  {
    if shares != [] {
      BreakdownFrom(shares[1..], now);
    }
  }

  lemma {:induction false} UndrainedAreWhole(q: seq<Row>)
    ensures forall x :: x in Allocate(q, 0) ==> x.unused == x.credit.amount
  {
    if q != [] {
      UndrainedAreWhole(q[1..]);
    }
  }

  ghost predicate WholeAfterHead(items: seq<Share>) {
    forall i :: 1 <= i < |items| ==> items[i].unused == items[i].credit.amount
  }

  /** Once one bundle is left partly used, no debits remain for the bundles after it. */
  lemma {:induction false} WholeAfterFirst(q: seq<Row>, debits: nat, now: int)
    ensures WholeAfterHead(Breakdown(Allocate(q, debits), now))
  {
    if q != [] {
      var used := Min(debits, q[0].amount);
      var shares, tail := Allocate(q, debits), Allocate(q[1..], debits - used);
      assert shares == [Share(q[0], q[0].amount - used)] + tail && shares[1..] == tail;
      var items, rest := Breakdown(shares, now), Breakdown(tail, now);
      if debits >= q[0].amount {
        WholeAfterFirst(q[1..], debits - used, now);
        assert items == rest;
      } else {
        UndrainedAreWhole(q[1..]);
        BreakdownFrom(tail, now);
        forall i | 1 <= i < |items| ensures items[i] in rest {
        }
      }
    }
  }

  /** The breakdown adds up to the balance, lists live bundles of this ledger, and every
      entry after the first is a whole bundle. */
  lemma BreakdownIsBalance(rows: seq<Row>, now: int)
    ensures var items := ExpiringCredits(rows, now);
            && Remaining(items) == Balance(rows, now)
            && (forall i :: 0 <= i < |items| ==> items[i].credit in rows && IsCredit(items[i].credit)
                                                 && !HasLapsed(items[i].credit, now) && items[i].unused > 0)
            && WholeAfterHead(items)
  {
    var shares := Allocate(Queue(rows), Spent(rows));
    QueueFacts(rows, now);
    BreakdownTotal(shares, now);
    BreakdownFrom(shares, now);
    WholeAfterFirst(Queue(rows), Spent(rows), now);
    AllocateCovers(Queue(rows), Spent(rows));
    forall i | 0 <= i < |ExpiringCredits(rows, now)|
      ensures ExpiringCredits(rows, now)[i].credit in rows && IsCredit(ExpiringCredits(rows, now)[i].credit)
    {
      assert ExpiringCredits(rows, now)[i] in shares;
    }
  }

  /** EXPIRED rows change neither of the reader's results. */
  lemma ReaderIgnoresExpiryRows(rows: seq<Row>, written: seq<Row>, now: int)
    requires forall r :: r in written ==> IsExpiryRow(r)
    ensures Balance(rows + written, now) == Balance(rows, now)
    ensures ExpiringCredits(rows + written, now) == ExpiringCredits(rows, now)
  {
    QueueIgnoresDebits(rows, written);
    SumIfAppend(rows, written, IsSpend);
    SumIfNone(written, IsSpend);
  }

  lemma {:induction false} SumIfNone(rows: seq<Row>, p: Row -> bool)
    requires forall r :: r in rows ==> !p(r)
    ensures SumIf(rows, p) == 0
  {
    if rows != [] {
      assert rows[0] in rows;
      SumIfNone(rows[1..], p);
    }
  }

  // ---- Spending ----

  lemma ConsumedSums(rows: seq<Row>, amount: nat, ref: Option<nat>, now: int)
    requires Consume(rows, amount, ref, now).Some?
    ensures var rows' := Consume(rows, amount, ref, now).value;
            && Spent(rows') == Spent(rows) + amount
            && Debited(rows') == Debited(rows) + amount
            && Granted(rows') == Granted(rows)
            && WrittenOff(rows') == WrittenOff(rows)
            && (forall t :: Lapsed(rows', t) == Lapsed(rows, t))
  {
    var debit := [Row(|rows|, Debit, amount, LikeUsage, ref, None, now)];
    SumIfAppend(rows, debit, IsSpend);
    SumIfAppend(rows, debit, IsDebit);
    SumIfAppend(rows, debit, IsCredit);
    SumIfAppend(rows, debit, IsExpiryRow);
    forall t ensures Lapsed(rows + debit, t) == Lapsed(rows, t) {
      LapsedAppend(rows, debit, t);
      LapsedDebits(debit, t);
    }
  }

  lemma LapsedAppend(a: seq<Row>, b: seq<Row>, t: int)
    ensures Lapsed(a + b, t) == Lapsed(a, t) + Lapsed(b, t)
  {
    var lapsed := (r: Row) => IsCredit(r) && HasLapsed(r, t);
    assert Lapsed(a, t) == SumIf(a, lapsed) && Lapsed(b, t) == SumIf(b, lapsed) && Lapsed(a + b, t) == SumIf(a + b, lapsed);
    SumIfAppend(a, b, lapsed);
  }

  lemma LapsedDebits(debits: seq<Row>, t: int)
    requires forall r :: r in debits ==> IsDebit(r)
    ensures Lapsed(debits, t) == 0
  {
    var lapsed := (r: Row) => IsCredit(r) && HasLapsed(r, t);
    assert Lapsed(debits, t) == SumIf(debits, lapsed);
    SumIfNone(debits, lapsed);
  }

  /** A spend is first charged to lapsed bundles nobody used, so it lowers the balance
      only by what exceeds them; it lowers it by its amount exactly when there are none. */
  lemma ConsumeLowersBalance(rows: seq<Row>, amount: nat, ref: Option<nat>, now: int)
    requires Consume(rows, amount, ref, now).Some?
    ensures var rows' := Consume(rows, amount, ref, now).value;
            var free := Max(0, Lapsed(rows, now) - Spent(rows));
            && Balance(rows', now) == Balance(rows, now) - Max(0, amount - free)
            && (Balance(rows', now) == Balance(rows, now) - amount <==> amount == 0 || free == 0)
  {
    ConsumedSums(rows, amount, ref, now);
    BalanceClosed(rows, now);
    BalanceClosed(Consume(rows, amount, ref, now).value, now);
    LapsedGrows(rows, now, now);
  }

  /** A concrete spend that costs nothing: five credits lapse unused, five remain, and
      after spending one of them five still remain. */
  lemma SpendAfterLapseIsFree()
    ensures exists rows, now :: Consume(rows, 1, None, now).Some?
                                && Balance(Consume(rows, 1, None, now).value, now) == Balance(rows, now) == 5
  {
    var rows := Grant(Grant([], 5, Bonus, None, Some(10), 0), 5, Purchase, None, None, 0);
    LapsedAppend([rows[0]], [rows[1]], 20);
    assert rows == [rows[0]] + [rows[1]];
    SumIfAppend([rows[0]], [rows[1]], IsCredit);
    SumIfAppend([rows[0]], [rows[1]], IsSpend);
    LapsedHead([rows[0]], 20);
    LapsedHead([rows[1]], 20);
    BalanceClosed(rows, 20);
    ConsumeLowersBalance(rows, 1, None, 20);
    assert Consume(rows, 1, None, 20).Some?;
  }

  // ---- The worker ----

  lemma AllocateHead(q: seq<Row>, debits: nat)
    requires q != []
    ensures var used := Min(debits, q[0].amount);
            Allocate(q, debits) == [Share(q[0], q[0].amount - used)] + Allocate(q[1..], debits - used)
  {
  }

  lemma {:induction false} AllocateCovers(q: seq<Row>, debits: nat)
    ensures var shares := Allocate(q, debits);
            && |shares| == |q|
            && forall i :: 0 <= i < |q| ==> shares[i].credit == q[i] && shares[i].unused <= q[i].amount
  {
    if q != [] {
      AllocateCovers(q[1..], debits - Min(debits, q[0].amount));
    }
  }

  /** `after` has nothing left in the lapsed bundles and agrees with `before` on the others. */
  ghost predicate Emptied(q: seq<Row>, before: seq<Share>, after: seq<Share>, t: int) {
    && |before| == |after| == |q|
    && forall i :: 0 <= i < |q| ==>
         && before[i].credit == after[i].credit == q[i]
         && after[i].unused == if HasLapsed(q[i], t) then 0 else before[i].unused
  }

  lemma EmptiedPrepend(q: seq<Row>, before: seq<Share>, after: seq<Share>, x: Share, y: Share, t: int)
    requires q != [] && Emptied(q[1..], before, after, t)
    requires x.credit == y.credit == q[0] && y.unused == if HasLapsed(q[0], t) then 0 else x.unused
    ensures Emptied(q, [x] + before, [y] + after, t)
  {
    forall i | 1 <= i < |q| ensures q[i] == q[1..][i - 1] {
    }
  }

  /** Draining at least X debits leaves nothing unused in any lapsed bundle, and draining
      up to X instead of fewer changes nothing in the unlapsed ones. */
  lemma {:induction false} AllocateSplit(q: seq<Row>, debits: nat, t: int)
    requires Ordered(q) && forall r :: r in q ==> IsCredit(r)
    ensures Emptied(q, Allocate(q, debits), Allocate(q, Max(debits, Lapsed(q, t))), t)
  {
    if q != [] {
      assert q[0] in q;
      LapsedHead(q, t);
      if HasLapsed(q[0], t) {
        var used, all := Min(debits, q[0].amount), Max(debits, Lapsed(q, t));
        assert all - q[0].amount == Max(debits - used, Lapsed(q[1..], t));
        AllocateSplit(q[1..], debits - used, t);
        LapsedHeadSplits(q, debits, all, t);
      } else {
        NothingLapsed(q, t);
        AllocateCovers(q, debits);
      }
    }
  }

  lemma LapsedHeadSplits(q: seq<Row>, debits: nat, all: nat, t: int)
    requires q != [] && HasLapsed(q[0], t) && all >= q[0].amount
    requires Emptied(q[1..], Allocate(q[1..], debits - Min(debits, q[0].amount)), Allocate(q[1..], all - q[0].amount), t)
    ensures Emptied(q, Allocate(q, debits), Allocate(q, all), t)
  {
    AllocateHead(q, debits);
    AllocateHead(q, all);
    EmptiedPrepend(q, Allocate(q[1..], debits - Min(debits, q[0].amount)), Allocate(q[1..], all - q[0].amount),
                   Share(q[0], q[0].amount - Min(debits, q[0].amount)), Share(q[0], 0), t);
  }

  function Amounts(shares: seq<Share>): nat {
    if shares == [] then 0 else shares[0].unused + Amounts(shares[1..])
  }

  /** The worker writes off exactly what the lapsed bundles hold beyond the debits. */
  lemma {:induction false} LeftoversTotal(q: seq<Row>, debits: nat, t: int)
    requires Ordered(q) && forall r :: r in q ==> IsCredit(r)
    ensures Amounts(Leftovers(Allocate(q, debits), t)) == Max(0, Lapsed(q, t) - debits)
  {
    if q != [] {
      var used := Min(debits, q[0].amount);
      var shares := Allocate(q, debits);
      assert shares[1..] == Allocate(q[1..], debits - used);
      assert q[0] in q;
      LapsedHead(q, t);
      LeftoversTotal(q[1..], debits - used, t);
      var rest := Leftovers(shares[1..], t);
      assert ([shares[0]] + rest)[1..] == rest && [] + rest == rest;
      if !HasLapsed(q[0], t) {
        NothingLapsed(q, t);
      }
    }
  }

  /** Two passes one after the other write what one pass at the later time writes. */
  lemma {:induction false} LeftoversCompose(q: seq<Row>, debits: nat, t: int, t': int)
    requires Ordered(q) && forall r :: r in q ==> IsCredit(r)
    ensures Leftovers(Allocate(q, debits), t) + Leftovers(Allocate(q, Max(debits, Lapsed(q, t))), t')
         == Leftovers(Allocate(q, debits), Max(t, t'))
  {
    if q != [] && HasLapsed(q[0], t) {
      var left, all := debits - Min(debits, q[0].amount), Max(debits, Lapsed(q, t));
      LapsedHead(q, t);
      assert all - q[0].amount == Max(left, Lapsed(q[1..], t));
      LeftoversCompose(q[1..], left, t, t');
      LapsedHeadComposes(q, debits, all, t, t', Max(t, t'));
    } else if q != [] {
      NothingLapsed(q, t);
      AllocateCovers(q, debits);
      NoLeftovers(Allocate(q, debits), t);
      if t' < t {
        NoLeftovers(Allocate(q, debits), t');
      }
    }
  }

  lemma LapsedHeadComposes(q: seq<Row>, debits: nat, all: nat, t: int, t': int, late: int)
    requires q != [] && HasLapsed(q[0], t) && HasLapsed(q[0], late) && all >= q[0].amount
    requires var left := debits - Min(debits, q[0].amount);
             Leftovers(Allocate(q[1..], left), t) + Leftovers(Allocate(q[1..], all - q[0].amount), t')
             == Leftovers(Allocate(q[1..], left), late)
    ensures Leftovers(Allocate(q, debits), t) + Leftovers(Allocate(q, all), t') == Leftovers(Allocate(q, debits), late)
  {
    var left := debits - Min(debits, q[0].amount);
    var first, second := Leftovers(Allocate(q[1..], left), t), Leftovers(Allocate(q[1..], all - q[0].amount), t');
    LeftoversDrained(q, all, t');
    if debits >= q[0].amount {
      LeftoversDrained(q, debits, t);
      LeftoversDrained(q, debits, late);
    } else {
      LeftoversPartial(q, debits, t);
      LeftoversPartial(q, debits, late);
      Regroup([Share(q[0], q[0].amount - debits)], first, second);
    }
  }

  lemma Regroup(a: seq<Share>, b: seq<Share>, c: seq<Share>)
    ensures (a + b) + c == a + (b + c)
  {
  }

  lemma LeftoversDrained(q: seq<Row>, debits: nat, t: int)
    requires q != [] && debits >= q[0].amount
    ensures Leftovers(Allocate(q, debits), t) == Leftovers(Allocate(q[1..], debits - q[0].amount), t)
  {
    LeftoversHead(q, debits, t);
  }

  lemma LeftoversPartial(q: seq<Row>, debits: nat, t: int)
    requires q != [] && debits < q[0].amount && HasLapsed(q[0], t)
    ensures Leftovers(Allocate(q, debits), t) == [Share(q[0], q[0].amount - debits)] + Leftovers(Allocate(q[1..], 0), t)
  {
    LeftoversHead(q, debits, t);
  }

  lemma LeftoversHead(q: seq<Row>, debits: nat, t: int)
    requires q != []
    ensures Leftovers(Allocate(q, debits), t)
         == (if HasLapsed(q[0], t) && q[0].amount > debits then [Share(q[0], q[0].amount - debits)] else [])
            + Leftovers(Allocate(q[1..], debits - Min(debits, q[0].amount)), t)
  {
    AllocateHead(q, debits);
    var shares := Allocate(q, debits);
    assert shares[1..] == Allocate(q[1..], debits - Min(debits, q[0].amount));
  }

  lemma {:induction false} NoLeftovers(shares: seq<Share>, t: int)
    requires forall i :: 0 <= i < |shares| ==> !HasLapsed(shares[i].credit, t) || shares[i].unused == 0
    ensures Leftovers(shares, t) == []
  {
    if shares != [] {
      NoLeftovers(shares[1..], t);
    }
  }

  lemma {:induction false} WriteOffFacts(shares: seq<Share>, asOf: int, firstId: nat)
    ensures var rows := WriteOffRows(shares, asOf, firstId);
            && |rows| == |shares|
            && (forall i :: 0 <= i < |rows| ==>
                  rows[i] == Row(firstId + i, Debit, shares[i].unused, Expired, Some(shares[i].credit.id), None, asOf))
            && (forall r :: r in rows ==> IsExpiryRow(r))
            && SumIf(rows, IsExpiryRow) == SumIf(rows, IsDebit) == Amounts(shares)
  {
    if shares != [] {
      WriteOffFacts(shares[1..], asOf, firstId + 1);
      assert WriteOffRows(shares, asOf, firstId)[1..] == WriteOffRows(shares[1..], asOf, firstId + 1);
    }
  }

  /** After a pass the debits reach X, nothing else the views read has changed, and the
      worker finds no lapsed bundle with a remainder. */
  lemma ExpireSums(rows: seq<Row>, asOf: int)
    ensures var rows' := Expire(rows, asOf);
            && Queue(rows') == Queue(rows)
            && Debited(rows') == Max(Debited(rows), Lapsed(rows, asOf))
            && Spent(rows') == Spent(rows)
            && Granted(rows') == Granted(rows)
            && (forall t :: Lapsed(rows', t) == Lapsed(rows, t))
            && ToWriteOff(rows', asOf) == []
  {
    var written := WriteOffRows(ToWriteOff(rows, asOf), asOf, |rows|);
    WriteOffFacts(ToWriteOff(rows, asOf), asOf, |rows|);
    QueueIgnoresDebits(rows, written);
    QueueFacts(rows, asOf);
    LeftoversTotal(Queue(rows), Debited(rows), asOf);
    SumIfAppend(rows, written, IsDebit);
    SumIfAppend(rows, written, IsSpend);
    SumIfAppend(rows, written, IsCredit);
    SumIfNone(written, IsSpend);
    SumIfNone(written, IsCredit);
    forall t ensures Lapsed(rows + written, t) == Lapsed(rows, t) {
      LapsedAppend(rows, written, t);
      LapsedDebits(written, t);
    }
    AllocateSplit(Queue(rows), Debited(rows), asOf);
    NoLeftovers(Allocate(Queue(rows), Max(Debited(rows), Lapsed(rows, asOf))), asOf);
  }

  /** The (bundle, amount) pairs a ledger has written off, oldest row first. */
  function WriteOffs(rows: seq<Row>): seq<(Option<nat>, nat)> {
    if rows == [] then []
    else (if IsExpiryRow(rows[0]) then [(rows[0].ref, rows[0].amount)] else []) + WriteOffs(rows[1..])
  }

  function Pairs(shares: seq<Share>): seq<(Option<nat>, nat)> {
    if shares == [] then []
    else [(Some(shares[0].credit.id), shares[0].unused)] + Pairs(shares[1..])
  }

  lemma {:induction false} WriteOffsAppend(a: seq<Row>, b: seq<Row>)
    ensures WriteOffs(a + b) == WriteOffs(a) + WriteOffs(b)
  {
    if a == [] {
      assert a + b == b;
    } else {
      var head, tail, rest := if IsExpiryRow(a[0]) then [(a[0].ref, a[0].amount)] else [], WriteOffs(a[1..]), WriteOffs(b);
      WriteOffsAppend(a[1..], b);
      assert (a + b)[0] == a[0] && (a + b)[1..] == a[1..] + b;
      assert WriteOffs(a + b) == head + (tail + rest);
      assert head + (tail + rest) == (head + tail) + rest;
    }
  }

  lemma {:induction false} WriteOffsOfRows(shares: seq<Share>, asOf: int, firstId: nat)
    ensures WriteOffs(WriteOffRows(shares, asOf, firstId)) == Pairs(shares)
  {
    if shares != [] {
      WriteOffsOfRows(shares[1..], asOf, firstId + 1);
      assert WriteOffRows(shares, asOf, firstId)[1..] == WriteOffRows(shares[1..], asOf, firstId + 1);
    }
  }

  lemma {:induction false} PairsAppend(a: seq<Share>, b: seq<Share>)
    ensures Pairs(a + b) == Pairs(a) + Pairs(b)
  {
    if a == [] {
      assert a + b == b;
    } else {
      assert (a + b)[1..] == a[1..] + b;
      PairsAppend(a[1..], b);
    }
  }

  lemma ExpireWritesOff(rows: seq<Row>, asOf: int)
    ensures WriteOffs(Expire(rows, asOf)) == WriteOffs(rows) + Pairs(ToWriteOff(rows, asOf))
  {
    WriteOffsAppend(rows, WriteOffRows(ToWriteOff(rows, asOf), asOf, |rows|));
    WriteOffsOfRows(ToWriteOff(rows, asOf), asOf, |rows|);
  }

  lemma ExpireTwice(rows: seq<Row>, t: int, t': int)
    ensures WriteOffs(Expire(Expire(rows, t), t')) == WriteOffs(Expire(rows, Max(t, t')))
  {
    QueueFacts(rows, t);
    ExpireSums(rows, t);
    LeftoversCompose(Queue(rows), Debited(rows), t, t');
    PairsAppend(ToWriteOff(rows, t), ToWriteOff(Expire(rows, t), t'));
    ExpireWritesOff(rows, t);
    ExpireWritesOff(Expire(rows, t), t');
    ExpireWritesOff(rows, Max(t, t'));
  }

  /** Repeating a pass at the same or an earlier time writes nothing. */
  lemma ExpireAgain(rows: seq<Row>, t: int, earlier: int)
    requires earlier <= t
    ensures Expire(Expire(rows, t), earlier) == Expire(rows, t)
  {
    QueueFacts(rows, t);
    ExpireSums(rows, t);
    LeftoversCompose(Queue(rows), Debited(rows), t, earlier);
    var a, b := ToWriteOff(rows, t), ToWriteOff(Expire(rows, t), earlier);
    assert a + b == a;
    assert |b| == |a + b| - |a|;
    assert b == [];
  }

  function ExpireAll(rows: seq<Row>, times: seq<int>): seq<Row>
    decreases |times|
  {
    if times == [] then rows else ExpireAll(Expire(rows, times[0]), times[1..])
  }

  function Latest(times: seq<int>): int
    requires times != []
  {
    if |times| == 1 then times[0] else Max(times[0], Latest(times[1..]))
  }

  /** Any number of passes, at whatever times and in whatever order, write off exactly the
      (bundle, amount) pairs of one pass at the latest of those times. */
  lemma {:induction false} ExpiryPassesMerge(rows: seq<Row>, times: seq<int>)
    requires times != []
    decreases |times|
    ensures WriteOffs(ExpireAll(rows, times)) == WriteOffs(Expire(rows, Latest(times)))
  {
    if |times| == 1 {
      assert ExpireAll(Expire(rows, times[0]), times[1..]) == Expire(rows, times[0]);
    } else {
      ExpiryPassesMerge(Expire(rows, times[0]), times[1..]);
      ExpireTwice(rows, times[0], Latest(times[1..]));
    }
  }

  // ---- When the views agree ----

  /** The published identity "balance = credits - debits" holds after a pass exactly when
      nobody overspent and, if anything was ever written off, all debits still fit into
      the lapsed bundles. */
  lemma PlainSumIsBalance(rows: seq<Row>, now: int)
    ensures var rows' := Expire(rows, now);
            Granted(rows') - Debited(rows') == Balance(rows', now) as int
            <==> Spent(rows) <= Granted(rows) && (WrittenOff(rows) == 0 || Debited(rows) <= Lapsed(rows, now))
  {
    ExpireSums(rows, now);
    BalanceClosed(Expire(rows, now), now);
    SumIfSplit(rows);
    LapsedGrows(rows, now, now);
  }

  /** With as much written off as lapsed, spending more than nothing makes the plain sum
      fall below the balance. */
  lemma OverspentAfterLapse(rows: seq<Row>, now: int)
    requires WrittenOff(rows) == Lapsed(rows, now) && 0 < Spent(rows) <= Lapsed(rows, now) < Granted(rows)
    ensures Granted(Expire(rows, now)) - Debited(Expire(rows, now)) < Balance(rows, now)
  {
    SumIfSplit(rows);
    ExpireSums(rows, now);
    BalanceClosed(rows, now);
  }

  /** Both allocations give every bundle that has not lapsed the same remainder. */
  ghost predicate AgreeOnLive(q: seq<Row>, reader: seq<Share>, worker: seq<Share>, now: int) {
    && |reader| == |worker| == |q|
    && forall i :: 0 <= i < |q| && !HasLapsed(q[i], now) ==> reader[i] == worker[i]
  }

  function ReaderShares(rows: seq<Row>): seq<Share> {
    Allocate(Queue(rows), Spent(rows))
  }

  function WorkerShares(rows: seq<Row>): seq<Share> {
    Allocate(Queue(rows), Debited(rows))
  }

  /** Nothing was written off, or all debits fit into the lapsed bundles, or the reader sees
      nothing left at all. */
  predicate AllocationsMeet(rows: seq<Row>, now: int) {
    || WrittenOff(rows) == 0
    || Debited(rows) <= Lapsed(rows, now)
    || Max(Spent(rows), Lapsed(rows, now)) >= Granted(rows)
  }

  lemma {:induction false} SpendableAgrees(q: seq<Row>, a: seq<Share>, b: seq<Share>, now: int)
    requires AgreeOnLive(q, a, b, now) && forall i :: 0 <= i < |q| ==> a[i].credit == q[i] == b[i].credit
    ensures Spendable(a, now) == Spendable(b, now)
  {
    if q != [] {
      forall i | 0 <= i < |q[1..]| && !HasLapsed(q[1..][i], now) ensures a[1..][i] == b[1..][i] {
        assert a[i + 1] == b[i + 1];
      }
      SpendableAgrees(q[1..], a[1..], b[1..], now);
    }
  }

  lemma {:induction false} NothingSpendable(shares: seq<Share>, now: int)
    requires Spendable(shares, now) == 0
    ensures forall i :: 0 <= i < |shares| && !HasLapsed(shares[i].credit, now) ==> shares[i].unused == 0
  {
    if shares != [] {
      NothingSpendable(shares[1..], now);
    }
  }

  /** After a pass the worker's allocation, which counts EXPIRED rows, gives every unexpired
      bundle the reader's remainder exactly when the allocations meet. */
  lemma WorkerAgreesWithReader(rows: seq<Row>, now: int)
    ensures var rows' := Expire(rows, now);
            AgreeOnLive(Queue(rows'), ReaderShares(rows'), WorkerShares(rows'), now) <==> AllocationsMeet(rows, now)
  {
    var q := Queue(rows);
    var d, w := Spent(rows), Max(Debited(rows), Lapsed(rows, now));
    ExpireSums(rows, now);
    QueueFacts(rows, now);
    SumIfSplit(rows);
    SpendableClosed(q, d, now);
    SpendableClosed(q, w, now);
    AllocateCovers(q, d);
    AllocateCovers(q, w);
    if w == Max(d, Lapsed(rows, now)) {
      AllocateSplit(q, d, now);
    } else if Max(d, Lapsed(rows, now)) >= Granted(rows) {
      NothingSpendable(Allocate(q, d), now);
      NothingSpendable(Allocate(q, w), now);
    } else if AgreeOnLive(q, Allocate(q, d), Allocate(q, w), now) {
      SpendableAgrees(q, Allocate(q, d), Allocate(q, w), now);
    }
  }

  // ---- The warner ----

  function IsPermanent(r: Row): bool {
    r.kind.Credit? && r.expiresAt.None?
  }

  /** A dated bundle goes among the dated ones, wherever permanent ones follow. */
  lemma {:induction false} InsertDated(r: Row, dated: seq<Row>, permanent: seq<Row>)
    requires IsDated(r) && (forall d :: d in dated ==> IsDated(d)) && (forall p :: p in permanent ==> IsPermanent(p))
    ensures Insert(r, dated + permanent) == Insert(r, dated) + permanent
  {
    if dated == [] {
      assert dated + permanent == permanent;
      assert permanent != [] ==> permanent[0] in permanent;
    } else {
      assert dated[0] in dated;
      assert (dated + permanent)[0] == dated[0] && (dated + permanent)[1..] == dated[1..] + permanent;
      if !NotAfter(r, dated[0]) {
        InsertDated(r, dated[1..], permanent);
        assert [dated[0]] + (Insert(r, dated[1..]) + permanent) == ([dated[0]] + Insert(r, dated[1..])) + permanent;
      }
    }
  }

  /** A permanent bundle goes behind all dated ones. */
  lemma {:induction false} InsertPermanent(r: Row, dated: seq<Row>, permanent: seq<Row>)
    requires IsPermanent(r) && forall d :: d in dated ==> IsDated(d)
    ensures Insert(r, dated + permanent) == dated + Insert(r, permanent)
  {
    if dated == [] {
      assert dated + permanent == permanent;
      assert [] + Insert(r, permanent) == Insert(r, permanent);
    } else {
      var rest := Insert(r, permanent);
      assert dated[0] in dated && !NotAfter(r, dated[0]);
      assert (dated + permanent)[0] == dated[0] && (dated + permanent)[1..] == dated[1..] + permanent;
      InsertPermanent(r, dated[1..], permanent);
      assert [dated[0]] + (dated[1..] + rest) == dated + rest;
    }
  }

  /** The dated bundles, sorted on their own, are the front of the full queue. */
  lemma {:induction false} DatedBundlesFirst(rows: seq<Row>)
    ensures Queue(rows) == Sort(Where(rows, IsDated)) + Sort(Where(rows, IsPermanent))
    ensures forall r :: r in Sort(Where(rows, IsPermanent)) ==> IsPermanent(r)
    ensures forall r :: r in Sort(Where(rows, IsDated)) ==> IsDated(r)
  {
    if rows != [] {
      DatedBundlesFirst(rows[1..]);
      var r, credits := rows[0], Where(rows[1..], IsCredit);
      var dated, permanent := Where(rows[1..], IsDated), Where(rows[1..], IsPermanent);
      assert ([r] + credits)[1..] == credits && ([r] + dated)[1..] == dated && ([r] + permanent)[1..] == permanent;
      assert [] + credits == credits && [] + dated == dated && [] + permanent == permanent;
      if IsCredit(r) {
        if IsDated(r) {
          InsertDated(r, Sort(dated), Sort(permanent));
          InsertMembers(r, Sort(dated));
        } else {
          InsertPermanent(r, Sort(dated), Sort(permanent));
          InsertMembers(r, Sort(permanent));
        }
      }
    }
  }

  lemma {:induction false} InsertMembers(r: Row, s: seq<Row>)
    ensures forall x :: x in Insert(r, s) <==> x == r || x in s
  {
    if s == [] || NotAfter(r, s[0]) {
    } else {
      InsertMembers(r, s[1..]);
    }
  }

  lemma {:induction false} FirstExpiringIgnoresTail(q: seq<Row>, tail: seq<Row>, debits: nat, asOf: int, end: int)
    requires forall r :: r in tail ==> IsPermanent(r)
    ensures FirstExpiring(Allocate(q + tail, debits), asOf, end) == FirstExpiring(Allocate(q, debits), asOf, end)
  {
    if q != [] {
      assert (q + tail)[1..] == q[1..] + tail;
      FirstExpiringIgnoresTail(q[1..], tail, debits - Min(debits, q[0].amount), asOf, end);
    } else {
      assert q + tail == tail;
      if tail != [] {
        assert tail[0] in tail;
        assert [] + tail[1..] == tail[1..];
        FirstExpiringIgnoresTail([], tail[1..], debits - Min(debits, tail[0].amount), asOf, end);
      }
    }
  }

  /** Looking at dated bundles only, the warner picks the bundle and the amount that the
      allocation over all bundles would give. */
  lemma WarnerAgreesWithWorker(rows: seq<Row>, asOf: int, end: int)
    ensures WarningFor(rows, asOf, end) == FirstExpiring(Allocate(Queue(rows), Debited(rows)), asOf, end)
  {
    DatedBundlesFirst(rows);
    FirstExpiringIgnoresTail(Sort(Where(rows, IsDated)), Sort(Where(rows, IsPermanent)), Debited(rows), asOf, end);
  }

  /** The effective debits of an allocation: at least what has lapsed is drained. */
  lemma LiveSharesAtLeastLapsed(q: seq<Row>, debits: nat, now: int, end: int)
    requires Ordered(q) && forall r :: r in q ==> IsCredit(r)
    ensures FirstExpiring(Allocate(q, debits), now, end) == FirstExpiring(Allocate(q, Max(debits, Lapsed(q, now))), now, end)
  {
    AllocateSplit(q, debits, now);
    SameLiveShares(Allocate(q, debits), Allocate(q, Max(debits, Lapsed(q, now))), now, end);
  }

  /** More debits move or shrink the first bundle of the window, as long as one was left. */
  lemma {:induction false} MoreDebitsChangeFirst(q: seq<Row>, few: nat, many: nat, now: int, end: int)
    requires Ordered(q) && (forall r :: r in q ==> IsCredit(r))
    requires forall i, j :: 0 <= i < j < |q| ==> q[i].id != q[j].id
    requires Lapsed(q, now) <= few < many && few < Lapsed(q, end)
    ensures FirstExpiring(Allocate(q, few), now, end) != FirstExpiring(Allocate(q, many), now, end)
  {
    if q == [] {
      LapsedDebits([], end);
    } else {
      assert q[0] in q;
      LapsedHead(q, now);
      LapsedHead(q, end);
      if few >= q[0].amount {
        if !HasLapsed(q[0], now) {
          NothingLapsed(q, now);
          LapsedGrows(q, Min(now, end), end);
          HeadIsInWindow(q, now, end);
        }
        FirstSkips(q, few, now, end);
        FirstSkips(q, many, now, end);
        MoreDebitsChangeFirst(q[1..], few - q[0].amount, many - q[0].amount, now, end);
      } else {
        HeadIsInWindow(q, now, end);
        HeadShrinks(q, few, many, now, end);
      }
    }
  }

  /** Debits that stop inside the first bundle leave less of it, or pass on to another one. */
  lemma HeadShrinks(q: seq<Row>, few: nat, many: nat, now: int, end: int)
    requires forall i, j :: 0 <= i < j < |q| ==> q[i].id != q[j].id
    requires q != [] && few < q[0].amount && few < many && q[0].expiresAt.Some? && now < q[0].expiresAt.value <= end
    ensures FirstExpiring(Allocate(q, few), now, end) != FirstExpiring(Allocate(q, many), now, end)
  {
    var rest := Allocate(q[1..], many - Min(many, q[0].amount));
    AllocateHead(q, few);
    AllocateHead(q, many);
    AllocateCovers(q[1..], many - Min(many, q[0].amount));
    FirstFrom(rest, now, end);
    assert Allocate(q, many)[1..] == rest;
    forall i | 0 <= i < |rest| ensures rest[i].credit.id != q[0].id {
      assert rest[i].credit == q[i + 1];
    }
  }

  lemma HeadIsInWindow(q: seq<Row>, now: int, end: int)
    requires Ordered(q) && q != [] && !HasLapsed(q[0], now) && Lapsed(q, end) > 0
    ensures q[0].expiresAt.Some? && now < q[0].expiresAt.value <= end
  {
    if !HasLapsed(q[0], end) {
      NothingLapsed(q, end);
    }
  }

  lemma FirstSkips(q: seq<Row>, debits: nat, now: int, end: int)
    requires q != [] && debits >= q[0].amount
    ensures FirstExpiring(Allocate(q, debits), now, end) == FirstExpiring(Allocate(q[1..], debits - q[0].amount), now, end)
  {
    AllocateHead(q, debits);
    assert Allocate(q, debits)[1..] == Allocate(q[1..], debits - q[0].amount);
  }

  lemma {:induction false} FirstFrom(shares: seq<Share>, now: int, end: int)
    ensures FirstExpiring(shares, now, end).Some? ==> FirstExpiring(shares, now, end).value in shares
  {
    if shares != [] {
      FirstFrom(shares[1..], now, end);
    }
  }

  /** Right after a pass the warned bundle and amount are the first expiring entry of the
      reader's breakdown exactly when nothing was written off, or all debits fit into the
      lapsed bundles, or the reader has used up everything that lapses by the window's end. */
  lemma WarningIsReaderShare(rows: seq<Row>, now: int, end: int)
    requires forall i :: 0 <= i < |rows| ==> rows[i].id == i
    ensures WarningFor(Expire(rows, now), now, end) == FirstExpiring(ExpiringCredits(Expire(rows, now), now), now, end)
            <==> WrittenOff(rows) == 0 || Debited(rows) <= Lapsed(rows, now)
                 || Max(Spent(rows), Lapsed(rows, now)) >= Lapsed(rows, end)
  {
    var q, x := Queue(rows), Lapsed(rows, now);
    var few, many := Max(Spent(rows), x), Max(Debited(rows), x);
    ExpireSums(rows, now);
    QueueFacts(rows, now);
    QueueFacts(rows, end);
    SumIfSplit(rows);
    QueueIdsDiffer(rows);
    WarnerAgreesWithWorker(Expire(rows, now), now, end);
    BreakdownKeepsFirst(Allocate(q, Spent(rows)), now, end);
    LiveSharesAtLeastLapsed(q, Spent(rows), now, end);
    if few < many && few < Lapsed(rows, end) {
      MoreDebitsChangeFirst(q, few, many, now, end);
    } else if few < many {
      NoneInWindow(q, few, now, end);
      NoneInWindow(q, many, now, end);
    }
  }

  /** Once everything that lapses by the end of the window is drained, nothing is in it. */
  lemma NoneInWindow(q: seq<Row>, debits: nat, now: int, end: int)
    requires Ordered(q) && (forall r :: r in q ==> IsCredit(r)) && debits >= Lapsed(q, end)
    ensures FirstExpiring(Allocate(q, debits), now, end).None?
  {
    AllocateSplit(q, debits, end);
    var shares := Allocate(q, debits);
    forall i | 0 <= i < |shares| && HasLapsed(shares[i].credit, end) ensures shares[i].unused == 0 {
      assert shares[i].credit == q[i];
    }
    NoneWithoutUnused(shares, now, end);
  }

  lemma {:induction false} NoneWithoutUnused(shares: seq<Share>, now: int, end: int)
    requires forall i :: 0 <= i < |shares| && HasLapsed(shares[i].credit, end) ==> shares[i].unused == 0
    ensures FirstExpiring(shares, now, end).None?
  {
    if shares != [] {
      NoneWithoutUnused(shares[1..], now, end);
    }
  }

  lemma {:induction false} SameLiveShares(a: seq<Share>, b: seq<Share>, now: int, end: int)
    requires |a| == |b|
    requires forall i :: 0 <= i < |a| ==> a[i].credit == b[i].credit && (!HasLapsed(a[i].credit, now) ==> a[i] == b[i])
    ensures FirstExpiring(a, now, end) == FirstExpiring(b, now, end)
  {
    if a != [] {
      SameLiveShares(a[1..], b[1..], now, end);
    }
  }

  lemma {:induction false} BreakdownKeepsFirst(shares: seq<Share>, now: int, end: int)
    ensures FirstExpiring(Breakdown(shares, now), now, end) == FirstExpiring(shares, now, end)
  {
    if shares != [] {
      BreakdownKeepsFirst(shares[1..], now, end);
      var rest := Breakdown(shares[1..], now);
      assert ([shares[0]] + rest)[1..] == rest && [] + rest == rest;
    }
  }
}
