/** Whole runs of one user's credit account: grants, checked spends and expiry passes in
    any interleaving, on a clock that never goes back. */
module CreditRuns {
  import opened Prelude
  import opened CreditLedger
  import opened CreditViews

  datatype Account = Account(rows: seq<Row>, now: int)

  datatype Step =
    | DoGrant(amount: nat, source: Source, ref: Option<nat>, expiresAt: Option<int>)
    | DoConsume(amount: nat, ref: Option<nat>)
    | DoExpire(asOf: int)
    | DoWait(until: int)

  /** A grant expires after the instant it is made; a pass is pinned to a past instant. */
  predicate Enabled(a: Account, step: Step) {
    match step
    case DoGrant(_, source, _, expiresAt) => source != LikeUsage && (expiresAt.Some? ==> expiresAt.value > a.now)
    case DoConsume(_, _) => true
    case DoExpire(asOf) => asOf <= a.now
    case DoWait(until) => a.now <= until
  }

  /** A spend the balance does not cover is refused and leaves the ledger alone. */
  function Next(a: Account, step: Step): Account {
    match step
    case DoGrant(amount, source, ref, expiresAt) => a.(rows := Grant(a.rows, amount, source, ref, expiresAt, a.now))
    case DoConsume(amount, ref) =>
      (match Consume(a.rows, amount, ref, a.now)
       case Some(rows) => a.(rows := rows)
       case None => a)
    case DoExpire(asOf) => a.(rows := Expire(a.rows, asOf))
    case DoWait(until) => a.(now := until)
  }

  ghost predicate IsRun(a: Account, steps: seq<Step>)
    decreases |steps|
  {
    steps == [] || (Enabled(a, steps[0]) && IsRun(Next(a, steps[0]), steps[1..]))
  }

  function After(a: Account, steps: seq<Step>): Account
    decreases |steps|
  {
    if steps == [] then a else After(Next(a, steps[0]), steps[1..])
  }

  // ---- The invariant ----

  /** Row `i` is an EXPIRED row for a bundle of this ledger that had lapsed by `t`, and
      it does not exceed that bundle. */
  ghost predicate ClosesBundle(rows: seq<Row>, i: nat, t: int)
    requires i < |rows|
  {
    && rows[i].ref.Some?
    && rows[i].ref.value < |rows|
    && IsCredit(rows[rows[i].ref.value])
    && HasLapsed(rows[rows[i].ref.value], t)
    && rows[i].amount <= rows[rows[i].ref.value].amount
  }

  /** All debits together cover what had lapsed by `t`, the latest pass so far, and the
      EXPIRED rows close different bundles that had lapsed by then. */
  ghost predicate SettledUpTo(rows: seq<Row>, t: int) {
    && Lapsed(rows, t) <= Debited(rows)
    && (forall i :: 0 <= i < |rows| ==> rows[i].id == i)
    && (forall i :: 0 <= i < |rows| && IsExpiryRow(rows[i]) ==> ClosesBundle(rows, i, t))
    && (forall i, j :: 0 <= i < j < |rows| && IsExpiryRow(rows[i]) && IsExpiryRow(rows[j]) ==> rows[i].ref != rows[j].ref)
  }

  ghost predicate Sound(a: Account) {
    && Spent(a.rows) <= Granted(a.rows)
    && exists t :: t <= a.now && SettledUpTo(a.rows, t)
  }

  lemma EmptyIsSound(now: int)
    ensures Sound(Account([], now))
  {
    LapsedDebits([], now);
    assert SettledUpTo([], now);
  }

  lemma GrantSums(rows: seq<Row>, amount: nat, source: Source, ref: Option<nat>, expiresAt: Option<int>, now: int, t: int)
    ensures var rows' := Grant(rows, amount, source, ref, expiresAt, now);
            && Granted(rows') == Granted(rows) + amount
            && Spent(rows') == Spent(rows)
            && Debited(rows') == Debited(rows)
            && Lapsed(rows', t) == Lapsed(rows, t) + if HasLapsed(rows'[|rows|], t) then amount else 0
  {
    var credit := [Row(|rows|, Credit, amount, source, ref, expiresAt, now)];
    SumIfAppend(rows, credit, IsCredit);
    SumIfAppend(rows, credit, IsSpend);
    SumIfAppend(rows, credit, IsDebit);
    LapsedAppend(rows, credit, t);
    LapsedHead(credit, t);
    LapsedDebits([], t);
    assert credit[1..] == [];
  }

  lemma GrantKeepsSettled(rows: seq<Row>, amount: nat, source: Source, ref: Option<nat>, expiresAt: Option<int>, now: int, t: int)
    requires SettledUpTo(rows, t) && t <= now
    requires expiresAt.Some? ==> expiresAt.value > now
    ensures SettledUpTo(Grant(rows, amount, source, ref, expiresAt, now), t)
  {
    GrantSums(rows, amount, source, ref, expiresAt, now, t);
    var rows' := Grant(rows, amount, source, ref, expiresAt, now);
    forall i | 0 <= i < |rows'| && IsExpiryRow(rows'[i]) ensures ClosesBundle(rows', i, t) {
      assert ClosesBundle(rows, i, t);
    }
  }

  lemma ConsumeKeepsSettled(rows: seq<Row>, amount: nat, ref: Option<nat>, now: int, t: int)
    requires SettledUpTo(rows, t) && Consume(rows, amount, ref, now).Some?
    ensures SettledUpTo(Consume(rows, amount, ref, now).value, t)
  {
    ConsumedSums(rows, amount, ref, now);
    var rows' := Consume(rows, amount, ref, now).value;
    forall i | 0 <= i < |rows'| && IsExpiryRow(rows'[i]) ensures ClosesBundle(rows', i, t) {
      assert ClosesBundle(rows, i, t);
    }
  }

  ghost predicate ClosesDistinct(written: seq<Share>, q: seq<Row>, shares: seq<Share>, asOf: int) {
    && (forall i :: 0 <= i < |written| ==> written[i].credit in q && HasLapsed(written[i].credit, asOf)
                                           && 0 < written[i].unused <= written[i].credit.amount && written[i] in shares)
    && (forall i, j :: 0 <= i < j < |written| ==> written[i].credit.id != written[j].credit.id)
  }

  /** In an ordered queue with ids of its own, the written-off shares name different
      bundles, each lapsed by `asOf` and not lapsed by an earlier settled time. */
  lemma {:induction false} LeftoversFrom(q: seq<Row>, debits: nat, asOf: int)
    requires forall i, j :: 0 <= i < j < |q| ==> q[i].id != q[j].id
    ensures ClosesDistinct(Leftovers(Allocate(q, debits), asOf), q, Allocate(q, debits), asOf)
  {
    if q != [] {
      var used := Min(debits, q[0].amount);
      LeftoversHead(q, debits, asOf);
      LeftoversFrom(q[1..], debits - used, asOf);
      assert Allocate(q, debits)[1..] == Allocate(q[1..], debits - used);
      var rest := Leftovers(Allocate(q[1..], debits - used), asOf);
      forall i | 0 <= i < |rest| ensures rest[i].credit.id != q[0].id {
        assert rest[i].credit in q[1..];
      }
    }
  }

  /** The shares to write off are those of different bundles of the ledger, lapsed by `asOf`
      but not yet by `t`. */
  ghost predicate FreshShares(rows: seq<Row>, written: seq<Share>, asOf: int, t: int) {
    && (forall k :: 0 <= k < |written| ==> FreshShare(rows, written[k], asOf, t))
    && (forall j, k :: 0 <= j < k < |written| ==> written[j].credit.id != written[k].credit.id)
  }

  ghost predicate FreshShare(rows: seq<Row>, share: Share, asOf: int, t: int) {
    && IsCredit(share.credit) && share.credit.id < |rows| && rows[share.credit.id] == share.credit
    && HasLapsed(share.credit, asOf) && !HasLapsed(share.credit, t) && share.unused <= share.credit.amount
  }

  lemma WrittenAreFresh(rows: seq<Row>, asOf: int, t: int)
    requires Lapsed(rows, t) <= Debited(rows) && forall i :: 0 <= i < |rows| ==> rows[i].id == i
    ensures FreshShares(rows, ToWriteOff(rows, asOf), asOf, t)
  {
    var q, written := Queue(rows), ToWriteOff(rows, asOf);
    QueueFacts(rows, t);
    QueueIdsDiffer(rows);
    LeftoversFrom(q, Debited(rows), asOf);
    forall k | 0 <= k < |written| ensures FreshShare(rows, written[k], asOf, t) {
      assert written[k].credit in q;
      assert written[k].credit in rows;
      StillUnused(rows, written[k], t);
    }
  }

  lemma WrittenCloseBundles(rows: seq<Row>, written: seq<Share>, asOf: int, t: int, i: nat)
    requires FreshShares(rows, written, asOf, t) && |rows| <= i < |rows| + |written|
    ensures var rows' := rows + WriteOffRows(written, asOf, |rows|);
            i < |rows'| && ClosesBundle(rows', i, Max(t, asOf))
  {
    WriteOffFacts(written, asOf, |rows|);
    var share := written[i - |rows|];
    assert FreshShare(rows, share, asOf, t);
  }

  lemma OldRowsStillClose(rows: seq<Row>, more: seq<Row>, asOf: int, t: int, i: nat)
    requires i < |rows| && ClosesBundle(rows, i, t)
    ensures ClosesBundle(rows + more, i, Max(t, asOf))
  {
  }

  /** No two EXPIRED rows close the same bundle: an old one closed a bundle lapsed by `t`. */
  lemma WrittenAreNew(rows: seq<Row>, written: seq<Share>, asOf: int, t: int, i: nat, j: nat)
    requires FreshShares(rows, written, asOf, t) && i < j && |rows| <= j < |rows| + |written|
    requires i < |rows| ==> ClosesBundle(rows, i, t)
    ensures var rows' := rows + WriteOffRows(written, asOf, |rows|);
            |rows'| == |rows| + |written| && rows'[i].ref != rows'[j].ref
  {
    WriteOffFacts(written, asOf, |rows|);
    assert FreshShare(rows, written[j - |rows|], asOf, t);
  }

  /** What a pass writes: new EXPIRED rows for different bundles that were not closed yet. */
  lemma ExpireClosesOnce(rows: seq<Row>, asOf: int, t: int)
    requires SettledUpTo(rows, t)
    ensures SettledUpTo(Expire(rows, asOf), Max(t, asOf))
  {
    var written, rows' := ToWriteOff(rows, asOf), Expire(rows, asOf);
    WriteOffFacts(written, asOf, |rows|);
    WrittenAreFresh(rows, asOf, t);
    SettledSums(rows, asOf, t);
    forall i | 0 <= i < |rows'| && IsExpiryRow(rows'[i]) ensures ClosesBundle(rows', i, Max(t, asOf)) {
      if i < |rows| {
        OldRowsStillClose(rows, WriteOffRows(written, asOf, |rows|), asOf, t, i);
      } else {
        WrittenCloseBundles(rows, written, asOf, t, i);
      }
    }
    forall i, j | 0 <= i < j < |rows'| && IsExpiryRow(rows'[i]) && IsExpiryRow(rows'[j]) ensures rows'[i].ref != rows'[j].ref {
      if j >= |rows| {
        WrittenAreNew(rows, written, asOf, t, i, j);
      }
    }
  }

  lemma SettledSums(rows: seq<Row>, asOf: int, t: int)
    requires Lapsed(rows, t) <= Debited(rows)
    ensures Lapsed(Expire(rows, asOf), Max(t, asOf)) <= Debited(Expire(rows, asOf))
  {
    ExpireSums(rows, asOf);
  }

  /** A bundle that still has an unused part under the worker's allocation cannot have
      lapsed by a time up to which the ledger is settled. */
  lemma StillUnused(rows: seq<Row>, share: Share, t: int)
    requires Lapsed(rows, t) <= Debited(rows)
    requires share in Allocate(Queue(rows), Debited(rows)) && share.unused > 0
    ensures !HasLapsed(share.credit, t)
  {
    QueueFacts(rows, t);
    AllocateSplit(Queue(rows), Debited(rows), t);
  }

  lemma StepKeepsSound(a: Account, step: Step)
    requires Sound(a) && Enabled(a, step)
    ensures Sound(Next(a, step))
  {
    var t :| t <= a.now && SettledUpTo(a.rows, t);
    match step
    case DoGrant(amount, source, ref, expiresAt) =>
      GrantSums(a.rows, amount, source, ref, expiresAt, a.now, t);
      GrantKeepsSettled(a.rows, amount, source, ref, expiresAt, a.now, t);
    case DoConsume(amount, ref) =>
      if Consume(a.rows, amount, ref, a.now).Some? {
        ConsumedSums(a.rows, amount, ref, a.now);
        BalanceClosed(a.rows, a.now);
        ConsumeKeepsSettled(a.rows, amount, ref, a.now, t);
      }
    case DoExpire(asOf) =>
      ExpireSums(a.rows, asOf);
      ExpireClosesOnce(a.rows, asOf, t);
      assert Max(t, asOf) <= a.now;
    case DoWait(until) =>
  }

  lemma {:induction false} RunKeepsSound(a: Account, steps: seq<Step>)
    requires Sound(a) && IsRun(a, steps)
    ensures Sound(After(a, steps))
    decreases |steps|
  {
    if steps != [] {
      StepKeepsSound(a, steps[0]);
      RunKeepsSound(Next(a, steps[0]), steps[1..]);
    }
  }

  /** Over every run from an empty ledger: what was spent never exceeds what was granted,
      and each bundle is written off at most once, for at most its amount. */
  lemma RunsStaySolvent(start: int, steps: seq<Step>)
    requires IsRun(Account([], start), steps)
    ensures var rows := After(Account([], start), steps).rows;
            && Spent(rows) <= Granted(rows)
            && (forall i :: 0 <= i < |rows| && IsExpiryRow(rows[i]) ==>
                  rows[i].ref.Some? && rows[i].ref.value < |rows| && IsCredit(rows[rows[i].ref.value])
                  && rows[i].amount <= rows[rows[i].ref.value].amount)
            && (forall i, j :: 0 <= i < j < |rows| && IsExpiryRow(rows[i]) && IsExpiryRow(rows[j]) ==> rows[i].ref != rows[j].ref)
  {
    EmptyIsSound(start);
    RunKeepsSound(Account([], start), steps);
    var a := After(Account([], start), steps);
    var t :| t <= a.now && SettledUpTo(a.rows, t);
    assert forall i :: 0 <= i < |a.rows| && IsExpiryRow(a.rows[i]) ==> ClosesBundle(a.rows, i, t);
  }

  /** If no lapsed bundle was left unused, a successful spend costs exactly its amount. */
  lemma RunSpendCosts(start: int, steps: seq<Step>, amount: nat, ref: Option<nat>)
    requires IsRun(Account([], start), steps)
    requires var a := After(Account([], start), steps);
             && Consume(a.rows, amount, ref, a.now).Some?
             && Lapsed(a.rows, a.now) <= Spent(a.rows)
    ensures var a := After(Account([], start), steps);
            var a' := Next(a, DoConsume(amount, ref));
            Balance(a'.rows, a'.now) == Balance(a.rows, a.now) - amount == Granted(a.rows) - Spent(a.rows) - amount
  {
    var a := After(Account([], start), steps);
    ConsumeLowersBalance(a.rows, amount, ref, a.now);
    EmptyIsSound(start);
    RunKeepsSound(Account([], start), steps);
    BalanceClosed(a.rows, a.now);
  }

  // ---- The published identity, on a ledger of a run ----

  lemma RunCons(a: Account, step: Step, rest: seq<Step>)
    ensures IsRun(a, [step] + rest) <==> Enabled(a, step) && IsRun(Next(a, step), rest)
    ensures After(a, [step] + rest) == After(Next(a, step), rest)
  {
    assert ([step] + rest)[1..] == rest;
  }

  /** Two bundles of five, one of which lapses and is written off; then one credit is spent. */
  function LapseThenSpend(): seq<Step> {
    [DoGrant(5, Bonus, None, Some(10))] + ([DoGrant(5, Purchase, None, None)]
      + ([DoWait(20)] + ([DoExpire(20)] + ([DoConsume(1, None)] + []))))
  }

  function AfterLapse(): Account {
    Next(Next(Next(Next(Account([], 0), DoGrant(5, Bonus, None, Some(10))), DoGrant(5, Purchase, None, None)), DoWait(20)), DoExpire(20))
  }

  lemma LapseThenSpendRuns()
    ensures IsRun(Account([], 0), LapseThenSpend())
    ensures After(Account([], 0), LapseThenSpend()) == Next(AfterLapse(), DoConsume(1, None))
  {
    var a1 := Next(Account([], 0), DoGrant(5, Bonus, None, Some(10)));
    var a2 := Next(a1, DoGrant(5, Purchase, None, None));
    var s4 := [DoConsume(1, None)] + [];
    var s3 := [DoExpire(20)] + s4;
    var s2 := [DoWait(20)] + s3;
    var s1 := [DoGrant(5, Purchase, None, None)] + s2;
    RunCons(AfterLapse(), DoConsume(1, None), []);
    RunCons(Next(a2, DoWait(20)), DoExpire(20), s4);
    RunCons(a2, DoWait(20), s3);
    RunCons(a1, DoGrant(5, Purchase, None, None), s2);
    RunCons(Account([], 0), DoGrant(5, Bonus, None, Some(10)), s1);
  }

  lemma SumsAfterLapse()
    ensures var a := AfterLapse();
            a.now == 20 && Granted(a.rows) == 10 && Lapsed(a.rows, 20) == 5 && Debited(a.rows) == 5 && Spent(a.rows) == 0
  {
    var rows1 := Grant([], 5, Bonus, None, Some(10), 0);
    var rows2 := Grant(rows1, 5, Purchase, None, None, 0);
    GrantSums([], 5, Bonus, None, Some(10), 0, 20);
    GrantSums(rows1, 5, Purchase, None, None, 0, 20);
    LapsedDebits([], 20);
    ExpireSums(rows2, 20);
    assert AfterLapse() == Account(Expire(rows2, 20), 20);
  }

  /** The identity "balance = credits - debits" is false on the ledger this run leaves. */
  lemma PlainSumCanDiffer()
    ensures var a := After(Account([], 0), LapseThenSpend());
            && IsRun(Account([], 0), LapseThenSpend())
            && Spent(a.rows) <= Granted(a.rows)
            && Granted(Expire(a.rows, a.now)) - Debited(Expire(a.rows, a.now)) < Balance(a.rows, a.now)
  {
    var a := AfterLapse();
    LapseThenSpendRuns();
    SumsAfterLapse();
    BalanceClosed(a.rows, 20);
    ConsumedSums(a.rows, 1, None, 20);
    var rows := Consume(a.rows, 1, None, 20).value;
    SumIfSplit(rows);
    OverspentAfterLapse(rows, 20);
  }
}
