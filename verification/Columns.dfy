/**
 What a DELETE does, column by column and without the vocabulary of its
 definition: which rows go, which stand in its way, and what of each remaining row
 is changed.
 */
module Columns {
  import opened Options
  import opened Schema
  import opened Cascade
  import opened CascadeProof
  import opened Statements
  import opened Orm

  /** The row belongs to one of `gone`: a contest to its organization, a category or
      package to its contest, a candidate to its category, a subaccount to its
      candidate. */
  predicate BelongsTo(r: Row, gone: set<Key>) {
    match r
    case Contest(organization, _, _, _, _) => Key(Organizations, organization) in gone
    case Category(contest, _) => Key(Contests, contest) in gone
    case Candidate(category, _, _, _, _) => Key(Categories, category) in gone
    case VotePackage(contest, _, _) => Key(Contests, contest) in gone
    case Subaccount(candidate, _, _, _) => Key(Candidates, candidate) in gone
    case _ => false
  }

  /** The row may not lose what it refers to: a transaction, a vote or a settlement. */
  predicate Needs(r: Row, gone: set<Key>) {
    match r
    case Transaction(candidate, package, contest, _, _, _, _, _, _) =>
      || Key(Candidates, candidate) in gone
      || Key(VotePackages, package) in gone
      || Key(Contests, contest) in gone
    case Vote(transaction, candidate, _) => Key(Transactions, transaction) in gone || Key(Candidates, candidate) in gone
    case Settlement(candidate, _, _, _, _, _, _) => Key(Candidates, candidate) in gone
    case _ => false
  }

  /** A nullable reference after the deletion: null if the row it named is gone. */
  function Left(table: Table, ref: Option<Id>, gone: set<Key>): Option<Id> {
    if ref.Some? && Key(table, ref.value) in gone then None else ref
  }

  /** All columns stay, but for the one nullable reference of the four tables that
      have one. */
  function Remaining(r: Row, gone: set<Key>): Row {
    match r
    case Organization(fee, user) => Organization(fee, Left(Users, user, gone))
    case User(email, role, organization) => User(email, role, Left(Organizations, organization, gone))
    case Candidate(category, user, slug, status, reason) =>
      Candidate(category, Left(Users, user, gone), slug, status, reason)
    case Settlement(candidate, start, end, amount, status, user, at) =>
      Settlement(candidate, start, end, amount, status, Left(Users, user, gone), at)
    case _ => r
  }

  // ----- the definitions against the columns -----

  lemma {:induction false} GoesWithInColumns(r: Row, gone: set<Key>)
    ensures BelongsTo(r, gone) <==> exists fk, p :: p in gone && OnDelete(fk) == Cascade && PointsAt(fk, r, p)
  {
    match r
    case Contest(o, _, _, _, _) =>
      assert BelongsTo(r, gone) ==> PointsAt(ContestOrganization, r, Key(Organizations, o));
    case Category(c, _) =>
      assert BelongsTo(r, gone) ==> PointsAt(CategoryContest, r, Key(Contests, c));
    case Candidate(c, _, _, _, _) =>
      assert BelongsTo(r, gone) ==> PointsAt(CandidateCategory, r, Key(Categories, c));
    case VotePackage(c, _, _) =>
      assert BelongsTo(r, gone) ==> PointsAt(PackageContest, r, Key(Contests, c));
    case Subaccount(c, _, _, _) =>
      assert BelongsTo(r, gone) ==> PointsAt(SubaccountCandidate, r, Key(Candidates, c));
    case _ =>
  }

  lemma {:induction false} NeedsInColumns(r: Row, gone: set<Key>)
    ensures Needs(r, gone) <==> exists fk, p :: p in gone && OnDelete(fk) == Restrict && PointsAt(fk, r, p)
  {
    match r
    case Transaction(c, p, t, _, _, _, _, _, _) =>
      assert PointsAt(TransactionCandidate, r, Key(Candidates, c));
      assert PointsAt(TransactionPackage, r, Key(VotePackages, p));
      assert PointsAt(TransactionContest, r, Key(Contests, t));
    case Vote(t, c, _) =>
      assert PointsAt(VoteTransaction, r, Key(Transactions, t));
      assert PointsAt(VoteCandidate, r, Key(Candidates, c));
    case Settlement(c, _, _, _, _, _, _) =>
      assert PointsAt(SettlementCandidate, r, Key(Candidates, c));
    case _ =>
  }

  lemma {:induction false} RemainingInColumns(r: Row, gone: set<Key>)
    ensures Nulled(r, gone) == Remaining(r, gone)
  {
  }

  lemma {:induction false} FollowersInColumns(db: Db, s: set<Key>)
    ensures forall k :: k in Followers(db, s) <==> k in db && BelongsTo(db[k], s)
  {
    forall k | k in db ensures k in Followers(db, s) <==> BelongsTo(db[k], s) {
      GoesWithInColumns(db[k], s);
      if BelongsTo(db[k], s) {
        var fk, p :| p in s && OnDelete(fk) == Cascade && PointsAt(fk, db[k], p);
        assert GoesWith(db, k, p);
      }
    }
  }

  /** A row goes with `roots` exactly if it is one of them or belongs to a row that
      goes. */
  lemma {:induction false} ClosureInColumns(db: Db, roots: set<Key>, k: Key)
    requires roots <= db.Keys && k in db
    ensures k in Closure(db, roots) <==> k in roots || BelongsTo(db[k], Closure(db, roots))
  {
    var c := Closure(db, roots);
    FollowersInColumns(db, c);
    if BelongsTo(db[k], c) {
      assert k in Followers(db, c);
    }
    if k in c && k !in roots && !BelongsTo(db[k], c) {
      forall q, p | p in c - {k} && GoesWith(db, q, p) ensures q in c - {k} {
        assert q in Followers(db, c);
      }
      ClosureIsLeast(db, roots, c - {k});
    }
  }

  lemma {:induction false} BlockedInColumns(db: Db, gone: set<Key>)
    ensures Blocked(db, gone) <==> exists k :: k in db && k !in gone && Needs(db[k], gone)
  {
    forall k | k in db
      ensures Needs(db[k], gone) <==> exists fk, p :: p in gone && OnDelete(fk) == Restrict && PointsAt(fk, db[k], p)
    {
      NeedsInColumns(db[k], gone);
    }
  }

  // ----- DELETE -----

  /** The rows that go are those asked for and those that belong to a row that goes;
      the DELETE is refused exactly if a vote was asked for, or some transaction,
      vote or settlement that stays needs a row that goes; and otherwise every row
      that stays keeps all its columns but a nullable reference to a row that goes. */
  lemma {:induction false} DeleteInColumns(db: Db, keys: set<Key>)
    ensures var gone := Closure(db, keys * db.Keys);
            && (forall k :: k in db ==> (k in gone <==> k in keys || BelongsTo(db[k], gone)))
            && (DeleteResult(db, keys) == None <==>
                  || (exists k :: k in keys && k in db && k.table == Votes)
                  || (exists k :: k in db && k !in gone && Needs(db[k], gone)))
            && (DeleteResult(db, keys).Some? ==>
                  && DeleteResult(db, keys).value.Keys == db.Keys - gone
                  && forall k :: k in db && k !in gone ==> DeleteResult(db, keys).value[k] == Remaining(db[k], gone))
  {
    var roots := keys * db.Keys;
    var gone := Closure(db, roots);
    forall k | k in db ensures k in gone <==> k in keys || BelongsTo(db[k], gone) {
      ClosureInColumns(db, roots, k);
    }
    BlockedInColumns(db, gone);
    forall k | k in db && k !in gone ensures Nulled(db[k], gone) == Remaining(db[k], gone) {
      RemainingInColumns(db[k], gone);
    }
    assert AnyVote(roots) <==> exists k :: k in keys && k in db && k.table == Votes;
  }

  /** The same, read off the states before and after: `gone` is what is missing
      afterwards. */
  lemma {:induction false} AcceptedDelete(db: Db, keys: set<Key>, db': Db)
    requires Accepted(db, Delete(keys), db')
    ensures var gone := db.Keys - db'.Keys;
            && db'.Keys <= db.Keys
            && (forall k :: k in db ==> (k !in db' <==> k in keys || BelongsTo(db[k], gone)))
            && (forall k :: k in db' ==> !Needs(db[k], gone) && db'[k] == Remaining(db[k], gone))
  {
    DeleteInColumns(db, keys);
    assert db.Keys - db'.Keys == Closure(db, keys * db.Keys);
  }

  /** The rows asked for, and all that belong to a row that goes. */
  predicate Goes(db: Db, keys: set<Key>, gone: set<Key>, k: Key)
    requires k in db
  {
    k in keys || BelongsTo(db[k], gone)
  }

  function Level(t: Table): nat {
    match t
    case Contests => 1
    case Categories => 2
    case VotePackages => 2
    case Candidates => 3
    case Subaccounts => 4
    case _ => 0
  }

  lemma {:induction false} SameRowsGo(db: Db, keys: set<Key>, g: set<Key>, h: set<Key>, k: Key)
    requires Typed(db) && k in db && g <= db.Keys && h <= db.Keys
    requires forall j :: j in db ==> (j in g <==> Goes(db, keys, g, j)) && (j in h <==> Goes(db, keys, h, j))
    ensures k in g <==> k in h
    decreases Level(k.table)
  {
    var parent := match db[k]
      case Contest(organization, _, _, _, _) => Key(Organizations, organization)
      case Category(contest, _) => Key(Contests, contest)
      case Candidate(category, _, _, _, _) => Key(Categories, category)
      case VotePackage(contest, _, _) => Key(Contests, contest)
      case Subaccount(candidate, _, _, _) => Key(Candidates, candidate)
      case _ => k;
    if parent != k && parent in db {
      SameRowsGo(db, keys, g, h, parent);
    }
  }

  /** There is only one such set of rows, for no row belongs to one of its own table
      by any detour: so the conditions above say which rows go. */
  lemma {:induction false} GoneIsDetermined(db: Db, keys: set<Key>, gone: set<Key>)
    requires Typed(db) && gone <= db.Keys
    requires forall k :: k in db ==> (k in gone <==> k in keys || BelongsTo(db[k], gone))
    ensures gone == Closure(db, keys * db.Keys)
  {
    var g := Closure(db, keys * db.Keys);
    DeleteInColumns(db, keys);
    forall k | k in db ensures k in gone <==> k in g {
      SameRowsGo(db, keys, gone, g, k);
    }
  }

  /** When a DELETE is accepted: it names rows of one table, and no vote; and no
      transaction, vote or settlement that stays needs a row that goes. */
  lemma {:induction false} DeleteIsAccepted(db: Db, keys: set<Key>, gone: set<Key>)
    requires Typed(db) && gone <= db.Keys
    requires forall k :: k in db ==> (k in gone <==> k in keys || BelongsTo(db[k], gone))
    ensures (exists db' :: Accepted(db, Delete(keys), db')) <==>
            && (forall j, k :: j in keys && k in keys ==> j.table == k.table)
            && (forall k :: k in keys && k in db ==> k.table != Votes)
            && (forall k :: k in db && k !in gone ==> !Needs(db[k], gone))
  {
    GoneIsDetermined(db, keys, gone);
    DeleteInColumns(db, keys);
    if OneTable(keys) && DeleteResult(db, keys).Some? {
      assert Accepted(db, Delete(keys), DeleteResult(db, keys).value);
    }
  }

  /** And so does the database leave it, in whatever order it takes its pending
      checks. */
  lemma {:induction false} EveryOrderInColumns(db: Db, keys: set<Key>, ts: seq<Todo>, r: Option<Work>)
    requires Typed(db) && OneTable(keys)
    requires match BeginDelete(db, keys)
             case None => r == None
             case Some(w) => Yields(w, ts, r) && Settled(r)
    ensures var gone := Closure(db, keys * db.Keys);
            && (r == None <==>
                  || (exists k :: k in keys && k in db && k.table == Votes)
                  || (exists k :: k in db && k !in gone && Needs(db[k], gone)))
            && (r.Some? ==>
                  && r.value.db.Keys == db.Keys - gone
                  && forall k :: k in db && k !in gone ==> r.value.db[k] == Remaining(db[k], gone))
  {
    EveryOrderGivesTheResult(db, keys, ts, r);
    DeleteInColumns(db, keys);
  }

  /** Through the ORM exactly the same happens to every row. */
  lemma {:induction false} FlushInColumns(db: Db, k: Key, d: set<Key>, order: seq<Key>)
    requires Typed(db) && k in db && Marks(db, k, d) && ChildrenFirst(db, d, order)
    ensures Flush(db, d, order) == None <==>
            k.table == Votes || exists c :: c in db && c !in d && Needs(db[c], d)
    ensures Flush(db, d, order).Some? ==>
              && Flush(db, d, order).value.Keys == db.Keys - d
              && forall c :: c in db && c !in d ==> Flush(db, d, order).value[c] == Remaining(db[c], d)
  {
    OrmAgreesWithTheDatabase(db, k, d, order);
    MarksAreTheClosure(db, k, d);
    assert {k} * db.Keys == {k};
    DeleteInColumns(db, {k});
  }
}
