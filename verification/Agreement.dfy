/**
 Can the votes be counted from the confirmed transactions alone?  They can if
 every vote has its successful transaction, for its own candidate, and every
 successful transaction has as many votes as its package sells.  The schema does
 not keep that; here is exactly which statements do.
 */
module Agreement {
  import opened Options
  import opened Schema
  import opened Cascade
  import opened Statements
  import opened Ledger

  /** How closely the number of votes is held to what was bought: not at all, so
      that a vote only needs a payment; from above, as between a payment and the
      insertion of its votes; or exactly. */
  datatype Strictness = AnyNumber | AtMost | Exactly

  predicate Fits(m: Strictness, votes: nat, bought: int) {
    match m
    case AnyNumber => true
    case AtMost => votes <= bought
    case Exactly => votes == bought
  }

  ghost function VotesOn(db: Db, transaction: Id): set<Key> {
    set v | v in db && db[v].Vote? && db[v].transactionId == transaction
  }

  /** Confirmed, and of the vote's candidate. */
  predicate Pays(r: Row, candidate: Id) {
    r.Transaction? && r.status == "success" && r.candidateId == candidate
  }

  /** What a successful transaction has bought, if its package is there. */
  ghost function Bought(db: Db, r: Row): Option<int> {
    if r.Transaction? && r.status == "success" then
      var p := Key(VotePackages, r.packageId);
      if p in db && db[p].VotePackage? then Some(db[p].voteCount) else None
    else None
  }

  /** As the transaction with this id, `r` would pay for each vote on it, and for
      as many as there are. */
  ghost predicate InBalance(m: Strictness, db: Db, id: Id, r: Row) {
    && (forall v :: v in VotesOn(db, id) ==> Pays(r, db[v].candidateId))
    && (Bought(db, r).Some? ==> Fits(m, |VotesOn(db, id)|, Bought(db, r).value))
  }

  /** Votes and payments agree. */
  ghost predicate Agrees(m: Strictness, db: Db) {
    forall t :: t in db && db[t].Transaction? ==> InBalance(m, db, t.id, db[t])
  }

  // ----- what agreement means -----

  lemma {:induction false} TransactionIsThere(db: Db, v: Key)
    requires Integrity(db) && v in db && db[v].Vote?
    ensures var t := Key(Transactions, db[v].transactionId); t in db && db[t].Transaction?
  {
    assert Ref(VoteTransaction, db[v]) == Some(db[v].transactionId);
    assert Key(Parent(VoteTransaction), Ref(VoteTransaction, db[v]).value) in db;
  }

  lemma {:induction false} PackageIsThere(db: Db, t: Key)
    requires Integrity(db) && t in db && db[t].Transaction?
    ensures var p := Key(VotePackages, db[t].packageId); p in db && db[p].VotePackage?
  {
    assert Ref(TransactionPackage, db[t]) == Some(db[t].packageId);
    assert Key(Parent(TransactionPackage), Ref(TransactionPackage, db[t]).value) in db;
  }

  ghost function VotesFor(db: Db, candidate: Id): set<Key> {
    set v | v in db && db[v].Vote? && db[v].candidateId == candidate
  }

  /** The confirmed transactions of a candidate. */
  ghost function PaymentsFor(db: Db, candidate: Id): set<Key> {
    set t | t in db && Pays(db[t], candidate)
  }

  ghost function AnyOf(ts: set<Key>): (t: Key)
    requires ts != {}
    ensures t in ts
  {
    var t :| t in ts;
    t
  }

  /** What these transactions have bought together. */
  ghost function Purchases(db: Db, ts: set<Key>): int
    requires ts <= db.Keys
  {
    if ts == {} then 0
    else
      var t := AnyOf(ts);
      (match Bought(db, db[t]) case Some(n) => n case None => 0) + Purchases(db, ts - {t})
  }

  ghost function VotesOnAny(db: Db, ts: set<Key>): set<Key> {
    set v | v in db && db[v].Vote? && Key(Transactions, db[v].transactionId) in ts
  }

  lemma {:induction false} VotesOnOneMore(db: Db, ts: set<Key>, t: Key)
    requires t in ts && t.table == Transactions
    ensures |VotesOnAny(db, ts)| == |VotesOn(db, t.id)| + |VotesOnAny(db, ts - {t})|
  {
    var all, one, rest := VotesOnAny(db, ts), VotesOn(db, t.id), VotesOnAny(db, ts - {t});
    forall v ensures v in all <==> v in one + rest {
    }
    assert all == one + rest;
    assert one !! rest;
  }

  lemma {:induction false} VotesArePurchases(m: Strictness, db: Db, ts: set<Key>)
    requires Integrity(db) && Agrees(m, db) && ts <= db.Keys
    requires forall t :: t in ts ==> db[t].Transaction? && db[t].status == "success"
    ensures Fits(m, |VotesOnAny(db, ts)|, Purchases(db, ts))
  {
    if ts == {} {
      assert VotesOnAny(db, ts) == {};
    } else {
      var t := AnyOf(ts);
      assert t.table == Transactions;
      PackageIsThere(db, t);
      assert InBalance(m, db, t.id, db[t]);
      VotesOnOneMore(db, ts, t);
      VotesArePurchases(m, db, ts - {t});
    }
  }

  /** Votes and payments agree: then the votes of a candidate are as many as the
      candidate's confirmed transactions have bought (at most as many, in the looser
      sense), and can be counted without looking at a single vote. */
  lemma {:induction false} VotesAreReconstructed(m: Strictness, db: Db, candidate: Id)
    requires Integrity(db) && Agrees(m, db)
    ensures Fits(m, |VotesFor(db, candidate)|, Purchases(db, PaymentsFor(db, candidate)))
  {
    var ts := PaymentsFor(db, candidate);
    VotesArePurchases(m, db, ts);
    forall v ensures v in VotesFor(db, candidate) <==> v in VotesOnAny(db, ts) {
      if v in db && db[v].Vote? {
        TransactionIsThere(db, v);
        assert v in VotesOn(db, db[v].transactionId);
      }
    }
    assert VotesFor(db, candidate) == VotesOnAny(db, ts);
  }

  lemma {:induction false} SamePurchases(db: Db, db': Db, ts: set<Key>)
    requires ts <= db.Keys && ts <= db'.Keys && forall t :: t in ts ==> db[t] == db'[t]
    requires SameRows(db, db', VotePackages)
    ensures Purchases(db, ts) == Purchases(db', ts)
  {
    if ts != {} {
      SamePackages(db, db', db[AnyOf(ts)]);
      SamePurchases(db, db', ts - {AnyOf(ts)});
    }
  }

  /** From the transactions alone, with their packages: where those are the same,
      and votes and payments agree, so is every count. */
  lemma {:induction false} PaymentsDetermineTheCounts(db: Db, db': Db, candidate: Id)
    requires Integrity(db) && Integrity(db') && Agrees(Exactly, db) && Agrees(Exactly, db')
    requires SameRows(db, db', Transactions) && SameRows(db, db', VotePackages)
    ensures |VotesFor(db, candidate)| == |VotesFor(db', candidate)|
  {
    VotesAreReconstructed(Exactly, db, candidate);
    VotesAreReconstructed(Exactly, db', candidate);
    SamePayments(db, db', candidate);
    SamePurchases(db, db', PaymentsFor(db, candidate));
  }

  lemma {:induction false} SamePayments(db: Db, db': Db, candidate: Id)
    requires Typed(db) && Typed(db') && SameRows(db, db', Transactions)
    ensures PaymentsFor(db, candidate) == PaymentsFor(db', candidate)
    ensures forall t :: t in PaymentsFor(db, candidate) ==> t in db && t in db' && db[t] == db'[t]
  {
  }

  /** In the weakest sense votes and payments agree exactly if every vote has its
      confirmed transaction, for its own candidate. */
  lemma {:induction false} EveryVoteIsPaid(db: Db)
    requires Integrity(db)
    ensures Agrees(AnyNumber, db) <==>
            forall v :: v in db && db[v].Vote? ==>
              var t := Key(Transactions, db[v].transactionId); t in db && Pays(db[t], db[v].candidateId)
  {
    forall v | v in db && db[v].Vote?
      ensures v in VotesOn(db, db[v].transactionId)
      ensures Key(Transactions, db[v].transactionId) in db && db[Key(Transactions, db[v].transactionId)].Transaction?
    {
      TransactionIsThere(db, v);
    }
    forall t | t in db && db[t].Transaction? ensures t == Key(Transactions, t.id) {
    }
  }

  lemma {:induction false} PackagesAreThere(db: Db)
    requires Integrity(db)
    ensures forall t :: t in db && db[t].Transaction? ==>
              var p := Key(VotePackages, db[t].packageId); p in db && db[p].VotePackage?
  {
    forall t | t in db && db[t].Transaction?
      ensures var p := Key(VotePackages, db[t].packageId); p in db && db[p].VotePackage?
    {
      PackageIsThere(db, t);
    }
  }

  lemma {:induction false} PaidInAnyNumber(m: Strictness, db: Db)
    requires Agrees(m, db)
    ensures Agrees(AnyNumber, db)
  {
    forall t | t in db && db[t].Transaction? ensures InBalance(AnyNumber, db, t.id, db[t]) {
      assert InBalance(m, db, t.id, db[t]);
    }
  }

  /** The agreement on the rows themselves: every vote has its successful transaction
      for its own candidate, and the votes on every successful transaction are
      counted against the number that its package sells. */
  lemma {:induction false} AgreementInColumns(m: Strictness, db: Db)
    requires Integrity(db)
    ensures Agrees(m, db) <==>
            && (forall v :: v in db && db[v].Vote? ==>
                  var t := Key(Transactions, db[v].transactionId);
                  t in db && db[t].Transaction? && db[t].status == "success" && db[t].candidateId == db[v].candidateId)
            && (forall t :: t in db && db[t].Transaction? && db[t].status == "success" ==>
                  var p := Key(VotePackages, db[t].packageId);
                  && p in db && db[p].VotePackage?
                  && var votes := |set v | v in db && db[v].Vote? && db[v].transactionId == t.id|;
                     (m == AtMost ==> votes <= db[p].voteCount) && (m == Exactly ==> votes == db[p].voteCount))
  {
    EveryVoteIsPaid(db);
    PackagesAreThere(db);
    if Agrees(m, db) {
      PaidInAnyNumber(m, db);
    }
    forall t | t in db && db[t].Transaction?
      ensures VotesOn(db, t.id) == set v | v in db && db[v].Vote? && db[v].transactionId == t.id
      ensures Agrees(AnyNumber, db) ==> InBalance(AnyNumber, db, t.id, db[t])
    {
    }
  }

  // ----- statement by statement -----

  /** The transaction comes with the rows, or gets a vote from them. */
  ghost predicate Touches(rows: Db, t: Key) {
    t in rows || exists v :: v in VotesOn(rows, t.id)
  }

  /** The package that an UPDATE puts at `k` still fits a transaction. */
  ghost predicate PackageFits(m: Strictness, db: Db, id: Id, package: Row, t: Key)
    requires t in db
  {
    db[t].Transaction? && db[t].status == "success" && db[t].packageId == id && package.VotePackage? ==>
      Fits(m, |VotesOn(db, t.id)|, package.voteCount)
  }

  /** What a statement that wants to keep the agreement has to look out for: each
      transaction that an INSERT brings, or gives votes to, must be in balance
      afterwards; a row that an UPDATE puts at a transaction's id must balance the
      votes on that id; and one that it puts at a package's id must fit every
      successful transaction that refers to it.  Nothing else matters. */
  ghost predicate Careful(m: Strictness, db: Db, st: Statement) {
    match st
    case Insert(rows) =>
      var db' := db + rows;
      forall t :: t in db' && db'[t].Transaction? && Touches(rows, t) ==> InBalance(m, db', t.id, db'[t])
    case Update(table, moves) =>
      && (table == Transactions ==>
            forall k :: Matched(db, table, moves, k) ==> InBalance(m, db, moves[k.id].id, moves[k.id].row))
      && (table == VotePackages ==>
            forall k, t :: Matched(db, table, moves, k) && t in db ==>
              PackageFits(m, db, moves[k.id].id, moves[k.id].row, t))
    case Delete(_) => true
    case Truncate(_, _) => true
  }

  /** The rows of one table are the same in both. */
  ghost predicate SameRows(db: Db, db': Db, table: Table) {
    forall k: Key :: k.table == table ==> (k in db <==> k in db') && (k in db ==> db'[k] == db[k])
  }

  lemma {:induction false} SameVotes(db: Db, db': Db, id: Id)
    requires Typed(db) && Typed(db') && SameRows(db, db', Votes)
    ensures VotesOn(db, id) == VotesOn(db', id)
    ensures forall v :: v in VotesOn(db, id) ==> v in db && v in db' && db'[v] == db[v]
  {
    forall v ensures v in VotesOn(db, id) <==> v in VotesOn(db', id) {
    }
  }

  /** The balance of a transaction depends on the votes on it and on its package. */
  lemma {:induction false} SameBalance(m: Strictness, db: Db, db': Db, id: Id, r: Row)
    requires VotesOn(db, id) == VotesOn(db', id) && Bought(db, r) == Bought(db', r)
    requires forall v :: v in VotesOn(db, id) ==> v in db && v in db' && db'[v] == db[v]
    ensures InBalance(m, db, id, r) <==> InBalance(m, db', id, r)
  {
  }

  lemma {:induction false} UntouchedBalance(m: Strictness, db: Db, rows: Db, t: Key)
    requires Integrity(db) && rows.Keys !! db.Keys && t in db && db[t].Transaction? && !Touches(rows, t)
    ensures InBalance(m, db, t.id, db[t]) <==> InBalance(m, db + rows, t.id, db[t])
  {
    var db' := db + rows;
    PackageIsThere(db, t);
    forall v ensures v in VotesOn(db, t.id) <==> v in VotesOn(db', t.id) {
      assert v in VotesOn(rows, t.id) ==> Touches(rows, t);
    }
    SameBalance(m, db, db', t.id, db[t]);
  }

  lemma {:induction false} InsertAgrees(m: Strictness, db: Db, rows: Db)
    requires Integrity(db) && Agrees(m, db) && rows.Keys !! db.Keys
    ensures Agrees(m, db + rows) <==> Careful(m, db, Insert(rows))
  {
    var db' := db + rows;
    forall t | t in db' && db'[t].Transaction? && !Touches(rows, t) ensures InBalance(m, db', t.id, db'[t]) {
      UntouchedBalance(m, db, rows, t);
    }
  }

  /** Fewer rows, but all votes, and whatever is left unchanged. */
  lemma {:induction false} FewerRowsAgree(m: Strictness, db: Db, db': Db)
    requires Integrity(db) && Agrees(m, db) && Integrity(db') && SameRows(db, db', Votes)
    requires forall k :: k in db' && (db'[k].Transaction? || db'[k].VotePackage?) ==> k in db && db[k] == db'[k]
    ensures Agrees(m, db')
  {
    forall t | t in db' && db'[t].Transaction? ensures InBalance(m, db', t.id, db'[t]) {
      PackageIsThere(db', t);
      SameVotes(db, db', t.id);
      SameBalance(m, db, db', t.id, db[t]);
    }
  }

  /** Rows of these three tables have no reference to lose. */
  predicate HasNoNullableKey(r: Row) {
    r.Vote? || r.Transaction? || r.VotePackage?
  }

  lemma {:induction false} SurvivorIsTheSame(r: Row, gone: set<Key>)
    ensures HasNoNullableKey(r) <==> HasNoNullableKey(Nulled(r, gone))
    ensures HasNoNullableKey(r) ==> Nulled(r, gone) == r
  {
  }

  lemma {:induction false} SurvivingRows(db: Db, gone: set<Key>)
    ensures forall k :: k in Survivors(db, gone) && HasNoNullableKey(Survivors(db, gone)[k]) ==>
              k in db && db[k] == Survivors(db, gone)[k]
  {
    forall k | k in Survivors(db, gone) && HasNoNullableKey(Survivors(db, gone)[k])
      ensures k in db && db[k] == Survivors(db, gone)[k]
    {
      SurvivorIsTheSame(db[k], gone);
    }
  }

  lemma {:induction false} SurvivingVotes(db: Db, gone: set<Key>)
    requires Typed(db) && VotesKept(db, Survivors(db, gone))
    ensures SameRows(db, Survivors(db, gone), Votes)
  {
  }

  lemma {:induction false} SurvivorsAgree(m: Strictness, db: Db, gone: set<Key>)
    requires Integrity(db) && Agrees(m, db) && Integrity(Survivors(db, gone)) && VotesKept(db, Survivors(db, gone))
    ensures Agrees(m, Survivors(db, gone))
  {
    SurvivingRows(db, gone);
    SurvivingVotes(db, gone);
    FewerRowsAgree(m, db, Survivors(db, gone));
  }

  lemma {:induction false} EmptiedAgrees(m: Strictness, db: Db, tables: set<Table>)
    requires Integrity(db) && Agrees(m, db) && Integrity(Emptied(db, tables)) && Votes !in tables
    ensures Agrees(m, Emptied(db, tables))
  {
    FewerRowsAgree(m, db, Emptied(db, tables));
  }

  // ----- UPDATE -----

  /** An UPDATE leaves the rows of other tables alone, and all rows if it matches
      none. */
  lemma {:induction false} OtherRowsStay(db: Db, table: Table, moves: map<Id, Placed>, db': Db, other: Table)
    requires Updated(db, table, moves, db')
    requires other != table || forall k :: !Matched(db, table, moves, k)
    ensures SameRows(db, db', other)
  {
    forall k: Key | k.table == other ensures (k in db <==> k in db') && (k in db ==> db'[k] == db[k]) {
      assert !Matched(db, table, moves, k);
      assert forall j :: Matched(db, table, moves, j) ==> k != Key(table, moves[j.id].id);
    }
  }

  /** The row at `t` was there before, or has been put there. */
  ghost predicate ComesFrom(db: Db, table: Table, moves: map<Id, Placed>, t: Key, r: Row) {
    (t in db && db[t] == r) || exists k :: Matched(db, table, moves, k) && moves[k.id] == Placed(t.id, r)
  }

  /** Every row of the updated table comes from somewhere, and every row that was
      to be put somewhere is there. */
  ghost predicate Arranged(db: Db, table: Table, moves: map<Id, Placed>, db': Db) {
    && (forall t :: t in db' && t.table == table ==> ComesFrom(db, table, moves, t, db'[t]))
    && (forall k :: Matched(db, table, moves, k) ==> IsAt(db', Key(table, moves[k.id].id), moves[k.id].row))
  }

  ghost predicate IsAt(db: Db, t: Key, r: Row) {
    t in db && db[t] == r
  }

  lemma {:induction false} UpdatedRow(db: Db, table: Table, moves: map<Id, Placed>, db': Db, t: Key)
    requires Updated(db, table, moves, db') && t in db' && t.table == table
    ensures ComesFrom(db, table, moves, t, db'[t])
  {
    if t !in db || Matched(db, table, moves, t) {
      var k :| Matched(db, table, moves, k) && t == Key(table, moves[k.id].id);
      assert moves[k.id] == Placed(t.id, db'[t]);
    }
  }

  lemma {:induction false} UpdatedIsArranged(db: Db, table: Table, moves: map<Id, Placed>, db': Db)
    requires Updated(db, table, moves, db')
    ensures Arranged(db, table, moves, db')
  {
    forall t | t in db' && t.table == table ensures ComesFrom(db, table, moves, t, db'[t]) {
      UpdatedRow(db, table, moves, db', t);
    }
  }

  lemma {:induction false} SamePackages(db: Db, db': Db, r: Row)
    requires SameRows(db, db', VotePackages)
    ensures Bought(db, r) == Bought(db', r)
  {
  }

  /** With votes and packages unchanged, so is the balance of any row. */
  lemma {:induction false} BalanceCarries(m: Strictness, db: Db, db': Db, id: Id, r: Row)
    requires Typed(db) && Typed(db') && SameRows(db, db', Votes) && SameRows(db, db', VotePackages)
    ensures InBalance(m, db, id, r) <==> InBalance(m, db', id, r)
  {
    SameVotes(db, db', id);
    SamePackages(db, db', r);
    SameBalance(m, db, db', id, r);
  }

  lemma {:induction false} CarefulTransaction(m: Strictness, db: Db, moves: map<Id, Placed>, t: Key, r: Row)
    requires Agrees(m, db) && Careful(m, db, Update(Transactions, moves))
    requires ComesFrom(db, Transactions, moves, t, r) && r.Transaction?
    ensures InBalance(m, db, t.id, r)
  {
  }

  lemma {:induction false} PlacedTransaction(m: Strictness, db: Db, db': Db, id: Id, r: Row)
    requires Typed(db) && Typed(db') && Agrees(m, db')
    requires SameRows(db, db', Votes) && SameRows(db, db', VotePackages)
    requires Key(Transactions, id) in db' && db'[Key(Transactions, id)] == r
    ensures InBalance(m, db, id, r)
  {
    assert r.Transaction?;
    BalanceCarries(m, db, db', id, r);
  }

  lemma {:induction false} TransactionsAgree(m: Strictness, db: Db, moves: map<Id, Placed>, db': Db)
    requires Typed(db) && Typed(db') && Agrees(m, db) && Arranged(db, Transactions, moves, db')
    requires SameRows(db, db', Votes) && SameRows(db, db', VotePackages)
    ensures Agrees(m, db') <==> Careful(m, db, Update(Transactions, moves))
  {
    if Careful(m, db, Update(Transactions, moves)) {
      forall t | t in db' && db'[t].Transaction? ensures InBalance(m, db', t.id, db'[t]) {
        assert t.table == Transactions;
        CarefulTransaction(m, db, moves, t, db'[t]);
        BalanceCarries(m, db, db', t.id, db'[t]);
      }
    }
    if Agrees(m, db') {
      forall k | Matched(db, Transactions, moves, k) ensures InBalance(m, db, moves[k.id].id, moves[k.id].row) {
        assert IsAt(db', Key(Transactions, moves[k.id].id), moves[k.id].row);
        PlacedTransaction(m, db, db', moves[k.id].id, moves[k.id].row);
      }
    }
  }

  /** A transaction in balance whose package is now `package` is so again exactly
      if the package fits. */
  lemma {:induction false} NewPackage(m: Strictness, db: Db, db': Db, t: Key, package: Row)
    requires Typed(db) && Typed(db') && SameRows(db, db', Votes)
    requires t in db && db[t].Transaction? && t in db' && db'[t] == db[t]
    requires InBalance(m, db, t.id, db[t]) && package.VotePackage?
    requires var p := Key(VotePackages, db[t].packageId); p in db' && db'[p] == package
    ensures InBalance(m, db', t.id, db[t]) <==> PackageFits(m, db, db[t].packageId, package, t)
  {
    SameVotes(db, db', t.id);
  }

  lemma {:induction false} KeptPackage(m: Strictness, db: Db, db': Db, t: Key)
    requires Typed(db) && Typed(db') && SameRows(db, db', Votes)
    requires t in db && db[t].Transaction? && t in db' && db'[t] == db[t] && InBalance(m, db, t.id, db[t])
    requires var p := Key(VotePackages, db[t].packageId); p in db && p in db' && db'[p] == db[p]
    ensures InBalance(m, db', t.id, db[t])
  {
    SameVotes(db, db', t.id);
    SameBalance(m, db, db', t.id, db[t]);
  }

  lemma {:induction false} CarefulPackage(m: Strictness, db: Db, moves: map<Id, Placed>, db': Db, t: Key)
    requires Integrity(db') && Typed(db) && Arranged(db, VotePackages, moves, db')
    requires SameRows(db, db', Votes) && t in db && db[t].Transaction? && t in db' && db'[t] == db[t]
    requires InBalance(m, db, t.id, db[t]) && Careful(m, db, Update(VotePackages, moves))
    ensures InBalance(m, db', t.id, db[t])
  {
    PackageIsThere(db', t);
    var p := Key(VotePackages, db[t].packageId);
    assert ComesFrom(db, VotePackages, moves, p, db'[p]);
    if p in db && db'[p] == db[p] {
      KeptPackage(m, db, db', t);
    } else {
      var k :| Matched(db, VotePackages, moves, k) && moves[k.id] == Placed(p.id, db'[p]);
      assert PackageFits(m, db, moves[k.id].id, moves[k.id].row, t);
      NewPackage(m, db, db', t, db'[p]);
    }
  }

  lemma {:induction false} PlacedPackage(m: Strictness, db: Db, db': Db, id: Id, package: Row, t: Key)
    requires Typed(db) && Typed(db') && Agrees(m, db) && Agrees(m, db')
    requires SameRows(db, db', Votes) && SameRows(db, db', Transactions) && t in db
    requires Key(VotePackages, id) in db' && db'[Key(VotePackages, id)] == package
    ensures PackageFits(m, db, id, package, t)
  {
    if db[t].Transaction? && db[t].packageId == id && package.VotePackage? {
      assert t.table == Transactions && db'[t] == db[t];
      NewPackage(m, db, db', t, package);
    }
  }

  lemma {:induction false} PackagesCareful(m: Strictness, db: Db, moves: map<Id, Placed>, db': Db)
    requires Typed(db) && Integrity(db') && Agrees(m, db) && Arranged(db, VotePackages, moves, db')
    requires SameRows(db, db', Votes) && SameRows(db, db', Transactions)
    requires Careful(m, db, Update(VotePackages, moves))
    ensures Agrees(m, db')
  {
    forall t | t in db' && db'[t].Transaction? ensures InBalance(m, db', t.id, db'[t]) {
      assert t.table == Transactions && t in db && db[t] == db'[t];
      CarefulPackage(m, db, moves, db', t);
    }
  }

  lemma {:induction false} PackagesAgree(m: Strictness, db: Db, moves: map<Id, Placed>, db': Db)
    requires Typed(db) && Integrity(db') && Agrees(m, db) && Arranged(db, VotePackages, moves, db')
    requires SameRows(db, db', Votes) && SameRows(db, db', Transactions)
    ensures Agrees(m, db') <==> Careful(m, db, Update(VotePackages, moves))
  {
    if Careful(m, db, Update(VotePackages, moves)) {
      PackagesCareful(m, db, moves, db');
    }
    if Agrees(m, db') {
      forall k, t | Matched(db, VotePackages, moves, k) && t in db
        ensures PackageFits(m, db, moves[k.id].id, moves[k.id].row, t)
      {
        assert IsAt(db', Key(VotePackages, moves[k.id].id), moves[k.id].row);
        PlacedPackage(m, db, db', moves[k.id].id, moves[k.id].row, t);
      }
    }
  }

  lemma {:induction false} SameRowsAgree(m: Strictness, db: Db, db': Db)
    requires Typed(db) && Typed(db') && Agrees(m, db)
    requires SameRows(db, db', Votes) && SameRows(db, db', Transactions) && SameRows(db, db', VotePackages)
    ensures Agrees(m, db')
  {
    forall t | t in db' && db'[t].Transaction? ensures InBalance(m, db', t.id, db'[t]) {
      assert t.table == Transactions && db[t] == db'[t];
      BalanceCarries(m, db, db', t.id, db[t]);
    }
  }

  lemma {:induction false} UpdateAgrees(m: Strictness, db: Db, table: Table, moves: map<Id, Placed>, db': Db)
    requires Typed(db) && Integrity(db') && Agrees(m, db) && Updated(db, table, moves, db')
    requires table == Votes ==> forall k :: !Matched(db, table, moves, k)
    ensures Agrees(m, db') <==> Careful(m, db, Update(table, moves))
  {
    UpdatedIsArranged(db, table, moves, db');
    OtherRowsStay(db, table, moves, db', Votes);
    if table == Transactions {
      OtherRowsStay(db, table, moves, db', VotePackages);
      TransactionsAgree(m, db, moves, db');
    } else if table == VotePackages {
      OtherRowsStay(db, table, moves, db', Transactions);
      PackagesAgree(m, db, moves, db');
    } else {
      OtherRowsStay(db, table, moves, db', Transactions);
      OtherRowsStay(db, table, moves, db', VotePackages);
      SameRowsAgree(m, db, db');
    }
  }

  // ----- theorems -----

  /** From a state in which votes and payments agree, an accepted statement leads
      to another such state exactly when it is careful: in each of the three
      senses. */
  lemma {:induction false} AgreementIsKeptIffCareful(m: Strictness, db: Db, st: Statement, db': Db)
    requires Integrity(db) && Agrees(m, db) && Accepted(db, st, db')
    ensures Agrees(m, db') <==> Careful(m, db, st)
  {
    StepKeepsIntegrity(db, st, db');
    StepKeepsVotes(db, st, db');
    match st
    case Insert(rows) => InsertAgrees(m, db, rows);
    case Update(table, moves) => UpdateAgrees(m, db, table, moves, db');
    case Delete(keys) => SurvivorsAgree(m, db, Closure(db, keys * db.Keys));
    case Truncate(tables, _) => EmptiedAgrees(m, db, TruncateClosure(tables));
  }

  /** Every statement of the history that took effect was careful. */
  ghost predicate CarefulHistory(m: Strictness, dbs: seq<Db>, sts: seq<Statement>)
    requires History(dbs, sts)
  {
    forall i :: 0 <= i < |sts| && Accepted(dbs[i], sts[i], dbs[i + 1]) ==> Careful(m, dbs[i], sts[i])
  }

  ghost predicate AgreesThroughout(m: Strictness, dbs: seq<Db>) {
    forall i :: 0 <= i < |dbs| ==> Agrees(m, dbs[i])
  }

  /** Over a whole history votes and payments agree at every moment exactly when
      they did at the start and every statement that took effect was careful. */
  lemma {:induction false} ReconstructableIffCareful(m: Strictness, dbs: seq<Db>, sts: seq<Statement>)
    requires History(dbs, sts) && Integrity(dbs[0])
    ensures AgreesThroughout(m, dbs) <==> Agrees(m, dbs[0]) && CarefulHistory(m, dbs, sts)
  {
    if AgreesThroughout(m, dbs) {
      forall i | 0 <= i < |sts| && Accepted(dbs[i], sts[i], dbs[i + 1]) ensures Careful(m, dbs[i], sts[i]) {
        HistoriesKeepIntegrity(dbs, sts, i);
        AgreementIsKeptIffCareful(m, dbs[i], sts[i], dbs[i + 1]);
      }
    }
    if Agrees(m, dbs[0]) && CarefulHistory(m, dbs, sts) {
      forall i | 0 <= i < |dbs| ensures Agrees(m, dbs[i]) {
        CarefulUpTo(m, dbs, sts, i);
      }
    }
  }

  lemma {:induction false} CarefulUpTo(m: Strictness, dbs: seq<Db>, sts: seq<Statement>, i: nat)
    requires History(dbs, sts) && Integrity(dbs[0]) && Agrees(m, dbs[0]) && CarefulHistory(m, dbs, sts) && i < |dbs|
    ensures Agrees(m, dbs[i])
  {
    if i > 0 {
      CarefulUpTo(m, dbs, sts, i - 1);
      HistoriesKeepIntegrity(dbs, sts, i - 1);
      assert Step(dbs[i - 1], sts[i - 1], dbs[i]);
      if dbs[i] != dbs[i - 1] {
        AgreementIsKeptIffCareful(m, dbs[i - 1], sts[i - 1], dbs[i]);
      }
    }
  }

  // ----- two statements that are not careful -----

  lemma {:induction false} OneVoteMore(db: Db, v: Key, w: Key)
    requires v in db && db[v].Vote? && w !in db
    ensures var id := db[v].transactionId;
            && VotesOn(db[w := db[v]], id) == VotesOn(db, id) + {w}
            && |VotesOn(db[w := db[v]], id)| == |VotesOn(db, id)| + 1
  {
    var id := db[v].transactionId;
    assert VotesOn(db[w := db[v]], id) == VotesOn(db, id) + {w};
  }

  lemma {:induction false} CopiedVoteIsAccepted(db: Db, v: Key, w: Key)
    requires Integrity(db) && v in db && v.table == Votes && w !in db && w.table == Votes
    ensures Accepted(db, Insert(map[w := db[v]]), db[w := db[v]])
  {
    var db' := db[w := db[v]];
    assert db + map[w := db[v]] == db';
    assert db[v].Vote? && forall u :: EntryOf(u, db[v]) == None;
    forall k, fk | k in db' && Ref(fk, db'[k]).Some? ensures Key(Parent(fk), Ref(fk, db'[k]).value) in db' {
      assert Ref(fk, db'[k]) == Ref(fk, if k == w then db[v] else db[k]);
    }
  }

  /** One payment can carry any number of votes: the copy of a vote, under an id of
      its own, is accepted from every state.  Each vote still has its payment, but
      the numbers no longer agree if they did, and at some point there are too
      many. */
  lemma {:induction false} VotesCanBeAdded(db: Db, v: Key, w: Key)
    requires Integrity(db) && v in db && v.table == Votes && w !in db && w.table == Votes
    ensures Accepted(db, Insert(map[w := db[v]]), db[w := db[v]])
    ensures Agrees(AnyNumber, db) ==> Agrees(AnyNumber, db[w := db[v]])
    ensures Agrees(Exactly, db) ==> !Agrees(Exactly, db[w := db[v]]) && !Agrees(AtMost, db[w := db[v]])
  {
    CopiedVoteIsAccepted(db, v, w);
    if Agrees(AnyNumber, db) {
      CopiedVoteIsPaid(db, v, w);
    }
    if Agrees(Exactly, db) {
      CopiedVoteIsTooMany(db, v, w);
    }
  }

  lemma {:induction false} CopiedVoteIsPaid(db: Db, v: Key, w: Key)
    requires Integrity(db) && v in db && v.table == Votes && w !in db && w.table == Votes && Agrees(AnyNumber, db)
    ensures Agrees(AnyNumber, db[w := db[v]])
  {
    var db' := db[w := db[v]];
    forall t | t in db' && db'[t].Transaction? ensures InBalance(AnyNumber, db', t.id, db'[t]) {
      assert t in db && InBalance(AnyNumber, db, t.id, db[t]);
      forall u | u in VotesOn(db', t.id) ensures Pays(db'[t], db'[u].candidateId) {
        assert (if u == w then v else u) in VotesOn(db, t.id);
      }
    }
  }

  lemma {:induction false} CopiedVoteIsTooMany(db: Db, v: Key, w: Key)
    requires Integrity(db) && v in db && v.table == Votes && w !in db && w.table == Votes && Agrees(Exactly, db)
    ensures !Agrees(Exactly, db[w := db[v]]) && !Agrees(AtMost, db[w := db[v]])
  {
    var db' := db[w := db[v]];
    TransactionIsThere(db, v);
    var t := Key(Transactions, db[v].transactionId);
    PackageIsThere(db, t);
    OneVoteMore(db, v, w);
    assert InBalance(Exactly, db, t.id, db[t]) && v in VotesOn(db, t.id);
    assert db'[t] == db[t] && Bought(db', db'[t]) == Bought(db, db[t]);
  }

  /** The transaction, marked failed and moved to another candidate. */
  function Rewritten(r: Row, candidate: Id): Row
    requires r.Transaction?
  {
    match r
    case Transaction(_, package, contest, reference, amount, _, matric, cap, confirmed) =>
      Transaction(candidate, package, contest, reference, amount, "failed", matric, cap, confirmed)
  }

  lemma {:induction false} FailedPaymentsDisagree(m: Strictness, db: Db, v: Key, r: Row)
    requires Integrity(db) && v in db && v.table == Votes && r.Transaction? && r.status == "failed"
    ensures !Agrees(m, db[Above(db, VoteTransaction, v) := r])
  {
    var t := Above(db, VoteTransaction, v);
    var db' := db[t := r];
    assert db[v].Vote? && t == Key(Transactions, db[v].transactionId) && db'[v] == db[v] && db'[t] == r;
    assert v in VotesOn(db', t.id) && !InBalance(m, db', t.id, r);
  }

  /** Nor does a vote hold its payment to what it was: the transaction under any
      vote may be marked failed and moved to any candidate, and then votes and
      payments disagree in every sense. */
  lemma {:induction false} PaymentsCanBeRewritten(m: Strictness, db: Db, v: Key, c: Key)
    requires Integrity(db) && v in db && v.table == Votes && c in db && c.table == Candidates
    ensures var t := Above(db, VoteTransaction, v);
            && db[t].Transaction?
            && var r := Rewritten(db[t], c.id);
               && Accepted(db, Update(Transactions, map[t.id := Placed(t.id, r)]), db[t := r])
               && !Agrees(m, db[t := r])
  {
    var t := Above(db, VoteTransaction, v);
    assert TableOf(db[t]) == Transactions;
    RewrittenIsAcceptable(db, t, c);
    CheckoutIsAcceptedIffIdentityIsFree(db, t, Rewritten(db[t], c.id));
    FailedPaymentsDisagree(m, db, v, Rewritten(db[t], c.id));
  }

  lemma {:induction false} RewrittenIsAcceptable(db: Db, t: Key, c: Key)
    requires Integrity(db) && t in db && db[t].Transaction? && c in db && c.table == Candidates
    ensures OtherwiseAcceptable(db, t, Rewritten(db[t], c.id))
    ensures !IdentityTaken(db, t, Rewritten(db[t], c.id))
  {
    var r := Rewritten(db[t], c.id);
    assert Checked(db[t]);
    forall fk | Ref(fk, r).Some? ensures Key(Parent(fk), Ref(fk, r).value) in db {
      if fk == TransactionCandidate {
        assert Key(Parent(fk), Ref(fk, r).value) == c;
      } else {
        assert Ref(fk, r) == Ref(fk, db[t]);
      }
    }
    forall j | j in db && j != t ensures EntryOf(TransactionReference, db[j]) != EntryOf(TransactionReference, r) {
      assert EntryOf(TransactionReference, r) == EntryOf(TransactionReference, db[t]);
    }
  }
}
