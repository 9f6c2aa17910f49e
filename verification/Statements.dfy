/** What a statement may do to the database, and what every statement keeps. */
module Statements {
  import opened Options
  import opened Schema
  import opened Cascade
  import opened CascadeProof

  /** The new identity and the new contents that an UPDATE gives a row. */
  datatype Placed = Placed(id: Id, row: Row)

  datatype Statement =
    | Insert(rows: Db)
    | Update(table: Table, moves: map<Id, Placed>)
    | Delete(keys: set<Key>)
    | Truncate(tables: set<Table>, cascade: bool)

  // ----- UPDATE -----

  predicate Matched(db: Db, table: Table, moves: map<Id, Placed>, k: Key) {
    k.table == table && k.id in moves && k in db
  }

  ghost predicate NoneMatched(db: Db, table: Table, moves: map<Id, Placed>) {
    forall k :: !Matched(db, table, moves, k)
  }

  ghost predicate MatchedMoved(db: Db, table: Table, moves: map<Id, Placed>, db': Db) {
    forall k :: Matched(db, table, moves, k) ==>
      Key(table, moves[k.id].id) in db' && db'[Key(table, moves[k.id].id)] == moves[k.id].row
  }

  ghost predicate OthersStayed(db: Db, table: Table, moves: map<Id, Placed>, db': Db) {
    forall k :: k in db && !Matched(db, table, moves, k) ==> k in db' && db'[k] == db[k]
  }

  ghost predicate NoneMet(db: Db, table: Table, moves: map<Id, Placed>) {
    && (forall j, k :: Matched(db, table, moves, j) && Matched(db, table, moves, k) && j != k ==>
          moves[j.id].id != moves[k.id].id)
    && (forall j, k :: Matched(db, table, moves, j) && k in db && !Matched(db, table, moves, k) ==>
          k != Key(table, moves[j.id].id))
  }

  ghost predicate NothingElse(db: Db, table: Table, moves: map<Id, Placed>, db': Db) {
    forall k :: k in db' && (k !in db || Matched(db, table, moves, k)) ==>
      exists j :: Matched(db, table, moves, j) && k == Key(table, moves[j.id].id)
  }

  /** The rows that matched are where and what `moves` says, and nothing else has
      changed; no two rows share a key. */
  ghost predicate Updated(db: Db, table: Table, moves: map<Id, Placed>, db': Db) {
    && MatchedMoved(db, table, moves, db')
    && OthersStayed(db, table, moves, db')
    && NoneMet(db, table, moves)
    && NothingElse(db, table, moves, db')
  }

  // ----- TRUNCATE -----

  const ALL_TABLES: set<Table> :=
    {Organizations, Users, Contests, Categories, Candidates,
     VotePackages, Subaccounts, Transactions, Votes, Settlements}

  ghost predicate ReferenceClosed(s: set<Table>) {
    forall fk :: Parent(fk) in s ==> Child(fk) in s
  }

  ghost function Referencing(s: set<Table>): set<Table> {
    set t | t in ALL_TABLES && exists fk :: Child(fk) == t && Parent(fk) in s
  }

  /** The tables that TRUNCATE ... CASCADE takes along, whatever ON DELETE says. */
  ghost function TruncateClosure(s: set<Table>): (c: set<Table>)
    ensures s <= c && ReferenceClosed(c)
    decreases ALL_TABLES - s
  {
    var more := Referencing(s);
    if more <= s then
      assert forall fk :: Child(fk) in ALL_TABLES;
      s
    else
      TruncateClosure(s + more)
  }

  lemma {:induction false} TruncateClosureIsLeast(s: set<Table>, t: set<Table>)
    requires s <= t && ReferenceClosed(t)
    ensures TruncateClosure(s) <= t
    decreases ALL_TABLES - s
  {
    if !(Referencing(s) <= s) {
      TruncateClosureIsLeast(s + Referencing(s), t);
    }
  }

  /** A table that another one refers to is refused, with or without rows, unless
      the other is truncated too; the trigger on votes refuses those. */
  ghost predicate MayTruncate(tables: set<Table>, cascade: bool) {
    && tables != {}
    && (cascade || ReferenceClosed(tables))
    && Votes !in TruncateClosure(tables)
  }

  ghost function Emptied(db: Db, tables: set<Table>): Db {
    map k | k in db && k.table !in tables :: db[k]
  }

  // ----- statements -----

  /** `db'` is what an accepted statement leaves. */
  ghost predicate Accepted(db: Db, st: Statement, db': Db) {
    match st
    case Insert(rows) => rows.Keys !! db.Keys && db' == db + rows && Integrity(db')
    case Update(table, moves) =>
      && (table == Votes ==> NoneMatched(db, table, moves))
      && Updated(db, table, moves, db')
      && Integrity(db')
    case Delete(keys) => OneTable(keys) && DeleteResult(db, keys) == Some(db')
    case Truncate(tables, cascade) => MayTruncate(tables, cascade) && db' == Emptied(db, TruncateClosure(tables))
  }

  /** A statement takes effect, or fails for some reason and changes nothing. */
  ghost predicate Step(db: Db, st: Statement, db': Db) {
    db' == db || Accepted(db, st, db')
  }

  // ----- integrity -----

  /** Losing a reference changes neither what the CHECKs see nor any index. */
  lemma {:induction false} NulledRow(r: Row, gone: set<Key>, fk: Fk, u: Unique)
    ensures TableOf(Nulled(r, gone)) == TableOf(r)
    ensures Checked(Nulled(r, gone)) == Checked(r)
    ensures EntryOf(u, Nulled(r, gone)) == EntryOf(u, r)
    ensures Ref(fk, Nulled(r, gone)) ==
            if LosesRef(r, gone) && NullableFk(TableOf(r)) == Some(fk) then None else Ref(fk, r)
  {
  }

  /** No reference of a survivor was to a deleted row. */
  lemma {:induction false} SurvivorsRefer(db: Db, gone: set<Key>, k: Key, fk: Fk)
    requires Refers(db) && Closed(db, gone) && !Blocked(db, gone) && k in db && k !in gone
    ensures var r := Ref(fk, Nulled(db[k], gone));
            r.Some? ==> Key(Parent(fk), r.value) in db && Key(Parent(fk), r.value) !in gone
  {
    NulledRow(db[k], gone, fk, UserEmail);
    var r := Ref(fk, db[k]);
    if r.Some? && Key(Parent(fk), r.value) in gone {
      var p := Key(Parent(fk), r.value);
      assert PointsAt(fk, db[k], p);
      match OnDelete(fk)
      case Cascade => assert GoesWith(db, k, p);
      case Restrict =>
      case SetNull => SetNullKeysAreNullable(fk);
    }
  }

  lemma {:induction false} SurvivorsIntegrity(db: Db, gone: set<Key>)
    requires Integrity(db) && Closed(db, gone) && !Blocked(db, gone)
    ensures Integrity(Survivors(db, gone))
  {
    var db' := Survivors(db, gone);
    forall k | k in db' ensures TableOf(db'[k]) == k.table && Checked(db'[k]) {
      NulledRow(db[k], gone, UserOrganization, UserEmail);
    }
    forall j, k, u | j in db' && k in db' && j != k && EntryOf(u, db'[j]).Some?
      ensures EntryOf(u, db'[j]) != EntryOf(u, db'[k])
    {
      NulledRow(db[j], gone, UserOrganization, u);
      NulledRow(db[k], gone, UserOrganization, u);
    }
    forall k, fk | k in db' && Ref(fk, db'[k]).Some? ensures Key(Parent(fk), Ref(fk, db'[k]).value) in db' {
      SurvivorsRefer(db, gone, k, fk);
    }
  }

  lemma {:induction false} EmptiedIntegrity(db: Db, tables: set<Table>)
    requires Integrity(db) && ReferenceClosed(tables)
    ensures Integrity(Emptied(db, tables))
  {
    var db' := Emptied(db, tables);
    forall k, fk | k in db' && Ref(fk, db'[k]).Some? ensures Key(Parent(fk), Ref(fk, db'[k]).value) in db' {
      assert Child(fk) == k.table;
    }
  }

  /** Every statement keeps every CHECK, every unique index and every foreign
      key; a DELETE keeps them without looking at the result. */
  lemma {:induction false} StepKeepsIntegrity(db: Db, st: Statement, db': Db)
    requires Integrity(db) && Step(db, st, db')
    ensures Integrity(db')
  {
    if db' != db {
      match st
      case Delete(keys) => SurvivorsIntegrity(db, Closure(db, keys * db.Keys));
      case Truncate(tables, _) => EmptiedIntegrity(db, TruncateClosure(tables));
      case _ =>
    }
  }

  /** `TRUNCATE` succeeds on subaccounts and settlements only: from every other
      table, references lead to votes. */
  lemma {:induction false} TruncatableTables(tables: set<Table>, cascade: bool)
    requires tables != {}
    ensures MayTruncate(tables, cascade) <==> tables <= {Subaccounts, Settlements}
  {
    var leaves := {Subaccounts, Settlements};
    if tables <= leaves {
      forall fk ensures Parent(fk) !in leaves {
      }
      TruncateClosureIsLeast(tables, tables);
    } else {
      var t :| t in tables && t !in leaves;
      LeadsToVotes(t, TruncateClosure(tables));
    }
  }

  lemma {:induction false} LeadsToVotes(t: Table, c: set<Table>)
    requires t in c && ReferenceClosed(c) && t != Subaccounts && t != Settlements
    ensures Votes in c
  {
    assert Parent(UserOrganization) in c ==> Child(ContestOrganization) in c;
    assert Parent(CandidateUser) in c ==> Child(CandidateUser) in c;
    assert Parent(CategoryContest) in c ==> Child(CategoryContest) in c;
    assert Parent(CandidateCategory) in c ==> Child(CandidateCategory) in c;
    assert Parent(TransactionPackage) in c ==> Child(TransactionPackage) in c;
    assert Parent(VoteTransaction) in c ==> Child(VoteTransaction) in c;
    assert Parent(VoteCandidate) in c ==> Child(VoteCandidate) in c;
  }
}
