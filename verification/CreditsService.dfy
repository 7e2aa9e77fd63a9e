/** The credits service: the loops that grant, spend, read, expire and warn, over one
    ledger per user. Each is tied to the views of module CreditLedger. */
module CreditsService {
  import opened Prelude
  import opened CreditLedger
  import opened CreditViews
  import opened FirstToExpire

  type UserId = nat

  type Ledgers = map<UserId, seq<Row>>

  datatype GrantResult = Granted(row: Row) | InvalidSource

  datatype ConsumeResult = Consumed(row: Row) | InsufficientCredits

  datatype Warning = Warning(user: UserId, bundle: Row, amount: nat, daysRemaining: int, urgent: bool)

  const DAY := 24 * 60 * 60 * 1000
  const SEVEN_DAYS := 7 * DAY

  function RowsOf(ledgers: Ledgers, user: UserId): seq<Row> {
    if user in ledgers then ledgers[user] else []
  }

  /** One user's pass; nothing is written when nothing is left over. */
  function ExpireUser(ledgers: Ledgers, user: UserId, asOf: int): Ledgers {
    if ToWriteOff(RowsOf(ledgers, user), asOf) == [] then ledgers
    else ledgers[user := Expire(RowsOf(ledgers, user), asOf)]
  }

  function ExpireUsers(ledgers: Ledgers, users: seq<UserId>, asOf: int): Ledgers
    decreases |users|
  {
    if users == [] then ledgers else ExpireUsers(ExpireUser(ledgers, users[0], asOf), users[1..], asOf)
  }

  /** How many rows a batch inserts. */
  function RowsInserted(ledgers: Ledgers, users: seq<UserId>, asOf: int): nat
    decreases |users|
  {
    if users == [] then 0
    else |ToWriteOff(RowsOf(ledgers, users[0]), asOf)|
         + RowsInserted(ExpireUser(ledgers, users[0], asOf), users[1..], asOf)
  }

  /** Days left, rounded half up, at least one. */
  function DaysRemaining(expiresAt: int, asOf: int): int {
    Max(1, (2 * (expiresAt - asOf) + DAY) / (2 * DAY))
  }

  /** The event for one bundle; two days or fewer are urgent. */
  function WarningOf(user: UserId, share: Share, asOf: int): Warning {
    var days := if share.credit.expiresAt.Some? then DaysRemaining(share.credit.expiresAt.value, asOf) else 7;
    Warning(user, share.credit, share.unused, days, days <= 2)
  }

  /** All rows of all ledgers. */
  ghost function TotalRows(ledgers: Ledgers): nat
    decreases ledgers.Keys
  {
    if ledgers == map[] then 0
    else
      assert ledgers.Keys != {};
      var u :| u in ledgers;
      assert (ledgers - {u}).Keys < ledgers.Keys;
      |ledgers[u]| + TotalRows(ledgers - {u})
  }

  /** The warnings a batch sends, in order. */
  function WarningsFor(ledgers: Ledgers, users: seq<UserId>, asOf: int): seq<Warning> {
    if users == [] then []
    else (match WarningFor(RowsOf(ledgers, users[0]), asOf, asOf + SEVEN_DAYS)
          case Some(share) => [WarningOf(users[0], share, asOf)]
          case None => [])
         + WarningsFor(ledgers, users[1..], asOf)
  }

  class CreditsService {
    var ledgers: Ledgers

    constructor (ledgers: Ledgers)
      ensures this.ledgers == ledgers
    {
      this.ledgers := ledgers;
    }

    method GetBalance(user: UserId, now: int) returns (balance: nat)
      ensures balance == Balance(RowsOf(ledgers, user), now)
      ensures balance == Max(0, CreditLedger.Granted(RowsOf(ledgers, user))
                                - Max(Spent(RowsOf(ledgers, user)), Lapsed(RowsOf(ledgers, user), now)))
    {
      var rows := RowsOf(ledgers, user);
      var remainingDebits: nat := Spent(rows);
      var credits := Queue(rows);
      balance := 0;
      for i := 0 to |credits|
        invariant balance + Spendable(Allocate(credits[i..], remainingDebits), now) == Balance(rows, now)
      {
        var credit := credits[i];
        var used: nat;
        if remainingDebits >= credit.amount {
          used := credit.amount;
          remainingDebits := remainingDebits - credit.amount;
        } else {
          used := remainingDebits;
          remainingDebits := 0;
        }
        var unused := credit.amount - used;
        if !HasLapsed(credit, now) && unused > 0 {
          balance := balance + unused;
        }
        assert credits[i..][1..] == credits[i + 1..];
      }
      BalanceClosed(rows, now);
    }

    method GetExpiringCredits(user: UserId, now: int) returns (items: seq<Share>)
      ensures items == ExpiringCredits(RowsOf(ledgers, user), now)
      ensures Remaining(items) == Balance(RowsOf(ledgers, user), now) && WholeAfterHead(items)
      ensures ReaderMayList(RowsOf(ledgers, user), items, now)
    {
      var rows := RowsOf(ledgers, user);
      var remainingDebits: nat := Spent(rows);
      var credits := Queue(rows);
      ghost var shares := Allocate(credits, remainingDebits);
      AllocateCovers(credits, remainingDebits);
      items := [];
      for i := 0 to |credits|
        invariant Allocate(credits[i..], remainingDebits) == shares[i..]
        invariant items == Breakdown(shares[..i], now)
      {
        var credit := credits[i];
        var used: nat;
        AllocateStep(credits, shares, i, remainingDebits);
        if remainingDebits >= credit.amount {
          used := credit.amount;
          remainingDebits := remainingDebits - credit.amount;
        } else {
          used := remainingDebits;
          remainingDebits := 0;
        }
        var unused := credit.amount - used;
        BreakdownGrows(shares, i, now);
        if !HasLapsed(credit, now) && unused > 0 {
          items := items + [Share(credit, unused)];
        }
      }
      assert shares[..|credits|] == shares;
      BreakdownIsBalance(rows, now);
      ReaderListsFirstToExpire(rows, now);
    }

    method GrantCredits(user: UserId, amount: nat, source: Source, ref: Option<nat>, expiresAt: Option<int>, now: int)
      returns (result: GrantResult)
      modifies this
      ensures result.InvalidSource? <==> source == LikeUsage
      ensures result.InvalidSource? ==> ledgers == old(ledgers)
      ensures result.Granted? ==>
        ledgers == old(ledgers)[user := Grant(RowsOf(old(ledgers), user), amount, source, ref, expiresAt, now)]
      ensures var rows := RowsOf(old(ledgers), user);
              result.Granted? ==>
                && result.row == Row(|rows|, Credit, amount, source, ref, expiresAt, now)
                && ledgers == old(ledgers)[user := rows + [result.row]]
    {
      if source == LikeUsage {
        return InvalidSource;
      }
      var rows := RowsOf(ledgers, user);
      var row := Row(|rows|, Credit, amount, source, ref, expiresAt, now);
      ledgers := ledgers[user := rows + [row]];
      result := GrantResult.Granted(row);
    }

    method HasSufficientCredits(user: UserId, required: nat, now: int) returns (enough: bool)
      ensures enough <==> required <= Balance(RowsOf(ledgers, user), now)
      ensures var rows := RowsOf(ledgers, user);
              enough <==> required == 0 || required <= CreditLedger.Granted(rows) - Max(Spent(rows), Lapsed(rows, now))
    {
      var balance := GetBalance(user, now);
      enough := balance >= required;
    }

    method ConsumeCredits(user: UserId, amount: nat, ref: Option<nat>, now: int) returns (result: ConsumeResult)
      modifies this
      ensures result.Consumed? <==> Consume(RowsOf(old(ledgers), user), amount, ref, now).Some?
      ensures result.Consumed? ==>
        ledgers == old(ledgers)[user := Consume(RowsOf(old(ledgers), user), amount, ref, now).value]
      ensures result.InsufficientCredits? ==> ledgers == old(ledgers)
      ensures var rows := RowsOf(old(ledgers), user);
              && (result.Consumed? <==> amount == 0 || amount <= CreditLedger.Granted(rows) - Max(Spent(rows), Lapsed(rows, now)))
              && (result.Consumed? ==>
                    && result.row == Row(|rows|, Debit, amount, LikeUsage, ref, None, now)
                    && ledgers == old(ledgers)[user := rows + [result.row]])
      ensures var free := Max(0, Lapsed(RowsOf(old(ledgers), user), now) - Spent(RowsOf(old(ledgers), user)));
              result.Consumed? ==> Balance(RowsOf(ledgers, user), now)
                                   == Balance(RowsOf(old(ledgers), user), now) - Max(0, amount - free)
    {
      var enough := HasSufficientCredits(user, amount, now);
      if !enough {
        return InsufficientCredits;
      }
      var rows := RowsOf(ledgers, user);
      var row := Row(|rows|, Debit, amount, LikeUsage, ref, None, now);
      ledgers := ledgers[user := rows + [row]];
      ConsumeLowersBalance(rows, amount, ref, now);
      result := Consumed(row);
    }

    method ExpireCreditsForUsers(users: seq<UserId>, asOf: int) returns (processedUsers: nat, inserted: nat)
      modifies this
      ensures ledgers == ExpireUsers(old(ledgers), users, asOf)
      ensures processedUsers == |users|
      ensures inserted == RowsInserted(old(ledgers), users, asOf)
      ensures inserted == TotalRows(ledgers) - TotalRows(old(ledgers))
    {
      ghost var before := ledgers;
      processedUsers, inserted := 0, 0;
      while processedUsers < |users|
        invariant 0 <= processedUsers <= |users|
        invariant ExpireUsers(ledgers, users[processedUsers..], asOf) == ExpireUsers(old(ledgers), users, asOf)
        invariant inserted + RowsInserted(ledgers, users[processedUsers..], asOf) == RowsInserted(old(ledgers), users, asOf)
      {
        var user := users[processedUsers];
        var rows := RowsOf(ledgers, user);
        var expirations := CollectExpirations(rows, asOf);
        WriteOffFacts(ToWriteOff(rows, asOf), asOf, |rows|);
        assert users[processedUsers..][0] == user && users[processedUsers..][1..] == users[processedUsers + 1..];
        if |expirations| > 0 {
          ledgers := ledgers[user := rows + expirations];
          inserted := inserted + |expirations|;
        }
        processedUsers := processedUsers + 1;
      }
      InsertedIsGrowth(before, users, asOf);
    }

    /** The EXPIRED rows one user's ledger needs. */
    method CollectExpirations(rows: seq<Row>, asOf: int) returns (toInsert: seq<Row>)
      ensures toInsert == WriteOffRows(ToWriteOff(rows, asOf), asOf, |rows|)
      ensures WorkerMayInsert(rows, toInsert, asOf)
    {
      var totalDebits: nat := Debited(rows);
      toInsert := DrainAndCollect(Queue(rows), totalDebits, asOf, |rows|);
      WorkerInsertsFirstToExpire(rows, asOf);
    }

    /** The inner loop of the worker. */
    method DrainAndCollect(credits: seq<Row>, debits: nat, asOf: int, firstId: nat) returns (toInsert: seq<Row>)
      ensures toInsert == WriteOffRows(Leftovers(Allocate(credits, debits), asOf), asOf, firstId)
    {
      var totalDebits: nat := debits;
      ghost var shares := Allocate(credits, debits);
      AllocateCovers(credits, debits);
      toInsert := [];
      CollectStart(credits, shares, debits, asOf, firstId);
      for i := 0 to |credits|
        invariant |shares| == |credits|
        invariant Drawn(credits, shares, i, totalDebits)
        invariant Collected(shares, i, toInsert, asOf, firstId)
      {
        var credit := credits[i];
        var used: nat := 0;
        DrawnStep(credits, shares, i, totalDebits);
        if totalDebits >= credit.amount {
          used := credit.amount;
          totalDebits := totalDebits - credit.amount;
        } else {
          used := totalDebits;
          totalDebits := 0;
        }
        var unused := credit.amount - used;
        CollectStep(shares, i, toInsert, asOf, firstId);
        if HasLapsed(credit, asOf) && unused > 0 {
          toInsert := toInsert + [Row(firstId + |toInsert|, Debit, unused, Expired, Some(credit.id), None, asOf)];
        }
      }
      CollectEnd(shares, toInsert, asOf, firstId);
    }

    method HandleExpiryWarningBatch(users: seq<UserId>, asOf: int) returns (warnings: seq<Warning>)
      ensures warnings == WarningsFor(ledgers, users, asOf)
    {
      warnings := [];
      for i := 0 to |users|
        invariant warnings == WarningsFor(ledgers, users[..i], asOf)
      {
        var found := FindExpiring(RowsOf(ledgers, users[i]), asOf, asOf + SEVEN_DAYS);
        WarningsGrow(ledgers, users, i, asOf);
        if found.Some? {
          var daysRemaining := DaysRemaining(found.value.credit.expiresAt.value, asOf);
          warnings := warnings + [Warning(users[i], found.value.credit, found.value.unused, daysRemaining, daysRemaining <= 2)];
        }
      }
      assert users[..|users|] == users;
    }

    /** The first bundle worth a warning. */
    method FindExpiring(rows: seq<Row>, asOf: int, targetEnd: int) returns (found: Option<Share>)
      ensures found == WarningFor(rows, asOf, targetEnd)
      ensures found == FirstExpiring(Allocate(Queue(rows), Debited(rows)), asOf, targetEnd)
      ensures found.Some? ==> found.value.credit.expiresAt.Some? && asOf < found.value.credit.expiresAt.value <= targetEnd
      ensures WarnerMayPick(rows, found, asOf, targetEnd)
    {
      found := DrainAndScan(Sort(Where(rows, IsDated)), Debited(rows), asOf, targetEnd);
      WarnerAgreesWithWorker(rows, asOf, targetEnd);
      WarnerPicksFirstDue(rows, asOf, targetEnd);
      FirstIsInWindow(Allocate(Queue(rows), Debited(rows)), asOf, targetEnd);
    }

    /** The inner loop of the warner: stop at the first bundle that is due. */
    method DrainAndScan(credits: seq<Row>, debits: nat, asOf: int, targetEnd: int) returns (found: Option<Share>)
      ensures found == FirstExpiring(Allocate(credits, debits), asOf, targetEnd)
    {
      var totalDebits: nat := debits;
      ghost var shares := Allocate(credits, debits);
      AllocateCovers(credits, debits);
      assert credits[0..] == credits && shares[0..] == shares;
      for k := 0 to |credits|
        invariant |shares| == |credits|
        invariant Drawn(credits, shares, k, totalDebits)
        invariant FirstExpiring(shares[k..], asOf, targetEnd) == FirstExpiring(shares, asOf, targetEnd)
      {
        var credit := credits[k];
        var used: nat := 0;
        DrawnStep(credits, shares, k, totalDebits);
        if totalDebits >= credit.amount {
          used := credit.amount;
          totalDebits := totalDebits - credit.amount;
        } else {
          used := totalDebits;
          totalDebits := 0;
        }
        var unused := credit.amount - used;
        assert shares[k..][1..] == shares[k + 1..];
        if credit.expiresAt.Some? && credit.expiresAt.value > asOf && credit.expiresAt.value <= targetEnd && unused > 0 {
          return Some(Share(credit, unused));
        }
      }
      return None;
    }
  }

  // ---- What a batch inserts ----

  lemma {:induction false} TotalRowsWithout(ledgers: Ledgers, u: UserId)
    requires u in ledgers
    ensures TotalRows(ledgers) == |ledgers[u]| + TotalRows(ledgers - {u})
    decreases ledgers.Keys
  {
    var v :| v in ledgers && TotalRows(ledgers) == |ledgers[v]| + TotalRows(ledgers - {v});
    if v != u {
      assert (ledgers - {v}).Keys < ledgers.Keys && (ledgers - {u}).Keys < ledgers.Keys;
      TotalRowsWithout(ledgers - {v}, u);
      TotalRowsWithout(ledgers - {u}, v);
      assert ledgers - {v} - {u} == ledgers - {u} - {v};
    }
  }

  lemma ExpireUserGrows(ledgers: Ledgers, user: UserId, asOf: int)
    ensures TotalRows(ExpireUser(ledgers, user, asOf)) == TotalRows(ledgers) + |ToWriteOff(RowsOf(ledgers, user), asOf)|
  {
    var rows, next := RowsOf(ledgers, user), ExpireUser(ledgers, user, asOf);
    if ToWriteOff(rows, asOf) != [] {
      assert user !in ledgers ==> Queue([]) == [];
      assert user in ledgers;
      WriteOffFacts(ToWriteOff(rows, asOf), asOf, |rows|);
      TotalRowsWithout(ledgers, user);
      TotalRowsWithout(next, user);
      assert next - {user} == ledgers - {user};
    }
  }

  /** The count is the growth of the ledgers: repeated users and settled ones add nothing. */
  lemma {:induction false} InsertedIsGrowth(ledgers: Ledgers, users: seq<UserId>, asOf: int)
    ensures RowsInserted(ledgers, users, asOf) == TotalRows(ExpireUsers(ledgers, users, asOf)) - TotalRows(ledgers)
    decreases |users|
  {
    if users != [] {
      ExpireUserGrows(ledgers, users[0], asOf);
      InsertedIsGrowth(ExpireUser(ledgers, users[0], asOf), users[1..], asOf);
    }
  }

  // ---- What the warnings say ----

  lemma {:induction false} FirstIsInWindow(shares: seq<Share>, asOf: int, end: int)
    ensures var found := FirstExpiring(shares, asOf, end);
            found.Some? ==> found.value.credit.expiresAt.Some? && asOf < found.value.credit.expiresAt.value <= end
                            && found.value.unused > 0
  {
    if shares != [] {
      FirstIsInWindow(shares[1..], asOf, end);
    }
  }

  /** Every warning of a batch concerns a listed user and a bundle that lapses within seven
      days and still holds its amount; it counts one to seven days, and is urgent exactly
      when less than two and a half days are left. */
  /** The bundle lapses within seven days and still holds the amount; the days count the
      nearest whole number, at least one; urgent is less than two and a half days. */
  ghost predicate IsTimely(w: Warning, asOf: int) {
    && w.amount > 0 && w.bundle.expiresAt.Some?
    && asOf < w.bundle.expiresAt.value <= asOf + SEVEN_DAYS
    && 1 <= w.daysRemaining <= 7
    && (w.daysRemaining > 1 ==> DAY * (2 * w.daysRemaining - 1) <= 2 * (w.bundle.expiresAt.value - asOf))
    && 2 * (w.bundle.expiresAt.value - asOf) < DAY * (2 * w.daysRemaining + 1)
    && (w.urgent <==> 2 * (w.bundle.expiresAt.value - asOf) < 5 * DAY)
  }

  lemma WarningIsTimely(rows: seq<Row>, user: UserId, asOf: int)
    ensures var found := WarningFor(rows, asOf, asOf + SEVEN_DAYS);
            found.Some? ==> IsTimely(WarningOf(user, found.value, asOf), asOf)
  {
    FirstIsInWindow(Allocate(Sort(Where(rows, IsDated)), Debited(rows)), asOf, asOf + SEVEN_DAYS);
  }

  /** Every warning of a batch concerns a listed user, the bundle the warner must pick for
      them and what that bundle still holds, and is timely. */
  lemma {:induction false} WarningsAreTimely(ledgers: Ledgers, users: seq<UserId>, asOf: int)
    ensures forall w :: w in WarningsFor(ledgers, users, asOf) ==>
      && w.user in users && IsTimely(w, asOf)
      && WarnerMayPick(RowsOf(ledgers, w.user), Some(Share(w.bundle, w.amount)), asOf, asOf + SEVEN_DAYS)
  {
    if users != [] {
      WarningsAreTimely(ledgers, users[1..], asOf);
      WarningIsTimely(RowsOf(ledgers, users[0]), users[0], asOf);
      WarnerPicksFirstDue(RowsOf(ledgers, users[0]), asOf, asOf + SEVEN_DAYS);
    }
  }

  /** A listed user is warned unless no bundle of theirs is due, and at most once a listing. */
  lemma {:induction false} DueUsersAreWarned(ledgers: Ledgers, users: seq<UserId>, asOf: int)
    ensures |WarningsFor(ledgers, users, asOf)| <= |users|
    ensures forall u :: u in users ==>
      || (exists w :: w in WarningsFor(ledgers, users, asOf) && w.user == u)
      || WarnerMayPick(RowsOf(ledgers, u), None, asOf, asOf + SEVEN_DAYS)
  {
    if users != [] {
      DueUsersAreWarned(ledgers, users[1..], asOf);
      var found := WarningFor(RowsOf(ledgers, users[0]), asOf, asOf + SEVEN_DAYS);
      WarnerPicksFirstDue(RowsOf(ledgers, users[0]), asOf, asOf + SEVEN_DAYS);
      var all, rest := WarningsFor(ledgers, users, asOf), WarningsFor(ledgers, users[1..], asOf);
      assert forall w :: w in rest ==> w in all;
      if found.Some? {
        assert WarningOf(users[0], found.value, asOf) in all;
      }
    }
  }

  // ---- Loop steps ----

  lemma AllocateStep(credits: seq<Row>, shares: seq<Share>, i: nat, debits: nat)
    requires i < |credits| == |shares|
    requires Allocate(credits[i..], debits) == shares[i..]
    ensures var used := Min(debits, credits[i].amount);
            && shares[i] == Share(credits[i], credits[i].amount - used)
            && Allocate(credits[i + 1..], debits - used) == shares[i + 1..]
  {
    assert credits[i..][1..] == credits[i + 1..] && shares[i..][1..] == shares[i + 1..];
  }

  lemma {:induction false} BreakdownAppend(a: seq<Share>, b: seq<Share>, now: int)
    ensures Breakdown(a + b, now) == Breakdown(a, now) + Breakdown(b, now)
  {
    if a == [] {
      assert a + b == b;
    } else {
      var head := if !HasLapsed(a[0].credit, now) && a[0].unused > 0 then [a[0]] else [];
      var tail, rest := Breakdown(a[1..], now), Breakdown(b, now);
      BreakdownAppend(a[1..], b, now);
      assert (a + b)[0] == a[0] && (a + b)[1..] == a[1..] + b;
      assert Breakdown(a + b, now) == head + (tail + rest);
      Regroup(head, tail, rest);
    }
  }

  lemma BreakdownGrows(shares: seq<Share>, i: nat, now: int)
    requires i < |shares|
    ensures Breakdown(shares[..i + 1], now) == Breakdown(shares[..i], now)
            + if !HasLapsed(shares[i].credit, now) && shares[i].unused > 0 then [shares[i]] else []
  {
    assert shares[..i + 1] == shares[..i] + [shares[i]];
    BreakdownAppend(shares[..i], [shares[i]], now);
  }

  lemma {:induction false} LeftoversAppend(a: seq<Share>, b: seq<Share>, asOf: int)
    ensures Leftovers(a + b, asOf) == Leftovers(a, asOf) + Leftovers(b, asOf)
  {
    if a == [] {
      assert a + b == b;
    } else {
      var head := if HasLapsed(a[0].credit, asOf) && a[0].unused > 0 then [a[0]] else [];
      var tail, rest := Leftovers(a[1..], asOf), Leftovers(b, asOf);
      LeftoversAppend(a[1..], b, asOf);
      assert (a + b)[0] == a[0] && (a + b)[1..] == a[1..] + b;
      assert Leftovers(a + b, asOf) == head + (tail + rest);
      Regroup(head, tail, rest);
    }
  }

  lemma LeftoversGrow(shares: seq<Share>, i: nat, asOf: int)
    requires i < |shares|
    ensures Leftovers(shares[..i + 1], asOf) == Leftovers(shares[..i], asOf)
            + if HasLapsed(shares[i].credit, asOf) && shares[i].unused > 0 then [shares[i]] else []
  {
    assert shares[..i + 1] == shares[..i] + [shares[i]];
    LeftoversAppend(shares[..i], [shares[i]], asOf);
  }

  lemma {:induction false} WriteOffRowsAppend(left: seq<Share>, share: Share, asOf: int, firstId: nat)
    ensures WriteOffRows(left + [share], asOf, firstId) == WriteOffRows(left, asOf, firstId)
            + [Row(firstId + |left|, Debit, share.unused, Expired, Some(share.credit.id), None, asOf)]
  {
    if left == [] {
      assert left + [share] == [share];
    } else {
      assert (left + [share])[1..] == left[1..] + [share];
      WriteOffRowsAppend(left[1..], share, asOf, firstId + 1);
    }
  }

  /** What `debits` drain from the bundles not visited yet are the shares still to come. */
  ghost predicate Drawn(credits: seq<Row>, shares: seq<Share>, i: nat, debits: nat) {
    i <= |credits| == |shares| && Allocate(credits[i..], debits) == shares[i..]
  }

  lemma DrawnStep(credits: seq<Row>, shares: seq<Share>, i: nat, debits: nat)
    requires i < |credits| && Drawn(credits, shares, i, debits)
    ensures var used := Min(debits, credits[i].amount);
            shares[i] == Share(credits[i], credits[i].amount - used) && Drawn(credits, shares, i + 1, debits - used)
  {
    AllocateStep(credits, shares, i, debits);
  }

  /** The rows for the shares visited so far. */
  ghost predicate Collected(shares: seq<Share>, i: nat, toInsert: seq<Row>, asOf: int, firstId: nat) {
    i <= |shares| && toInsert == WriteOffRows(Leftovers(shares[..i], asOf), asOf, firstId)
  }

  lemma CollectStart(credits: seq<Row>, shares: seq<Share>, debits: nat, asOf: int, firstId: nat)
    requires |credits| == |shares| && shares == Allocate(credits, debits)
    ensures Drawn(credits, shares, 0, debits) && Collected(shares, 0, [], asOf, firstId)
  {
    assert credits[0..] == credits && shares[0..] == shares;
  }

  lemma CollectEnd(shares: seq<Share>, toInsert: seq<Row>, asOf: int, firstId: nat)
    requires Collected(shares, |shares|, toInsert, asOf, firstId)
    ensures toInsert == WriteOffRows(Leftovers(shares, asOf), asOf, firstId)
  {
    assert shares[..|shares|] == shares;
  }

  /** One more share of the worker's loop adds its row, or nothing. */
  lemma CollectStep(shares: seq<Share>, i: nat, toInsert: seq<Row>, asOf: int, firstId: nat)
    requires i < |shares| && Collected(shares, i, toInsert, asOf, firstId)
    ensures Collected(shares, i + 1,
                      if HasLapsed(shares[i].credit, asOf) && shares[i].unused > 0
                      then toInsert + [Row(firstId + |toInsert|, Debit, shares[i].unused, Expired, Some(shares[i].credit.id), None, asOf)]
                      else toInsert,
                      asOf, firstId)
  {
    var left := Leftovers(shares[..i], asOf);
    LeftoversGrow(shares, i, asOf);
    WriteOffFacts(left, asOf, firstId);
    if HasLapsed(shares[i].credit, asOf) && shares[i].unused > 0 {
      WriteOffRowsAppend(left, shares[i], asOf, firstId);
    } else {
      assert left + [] == left;
    }
  }

  lemma {:induction false} WarningsAppend(ledgers: Ledgers, a: seq<UserId>, b: seq<UserId>, asOf: int)
    ensures WarningsFor(ledgers, a + b, asOf) == WarningsFor(ledgers, a, asOf) + WarningsFor(ledgers, b, asOf)
  {
    if a == [] {
      assert a + b == b;
    } else {
      assert (a + b)[1..] == a[1..] + b;
      WarningsAppend(ledgers, a[1..], b, asOf);
    }
  }

  lemma WarningsGrow(ledgers: Ledgers, users: seq<UserId>, i: nat, asOf: int)
    requires i < |users|
    ensures WarningsFor(ledgers, users[..i + 1], asOf) == WarningsFor(ledgers, users[..i], asOf)
            + WarningsFor(ledgers, [users[i]], asOf)
  {
    assert users[..i + 1] == users[..i] + [users[i]];
    WarningsAppend(ledgers, users[..i], [users[i]], asOf);
  }
}
