/**
 Which rows the database takes, column by column: the CHECKs, foreign keys and
 unique indexes of each table as conditions on one new row, or on one row that is
 rewritten in place, in any state that the database can be in.
 */
module Acceptance {
  import opened Options
  import opened Schema
  import opened Statements

  // ----- in general -----

  ghost predicate Referring(db: Db, r: Row) {
    forall fk :: Ref(fk, r).Some? ==> Key(Parent(fk), Ref(fk, r).value) in db
  }

  /** No other row has an entry of `r` in any index. */
  ghost predicate Unclaimed(db: Db, k: Key, r: Row) {
    forall j, u :: j in db && j != k && EntryOf(u, r).Some? ==> EntryOf(u, db[j]) != EntryOf(u, r)
  }

  lemma {:induction false} NoKeyIntoItsOwnTable(fk: Fk)
    ensures Parent(fk) != Child(fk)
  {
  }

  lemma {:induction false} RefTable(fk: Fk, r: Row)
    requires Ref(fk, r).Some?
    ensures Child(fk) == TableOf(r)
  {
  }

  lemma {:induction false} RefersWith(db: Db, k: Key, r: Row)
    requires Refers(db) && TableOf(r) == k.table
    ensures Refers(db[k := r]) <==> Referring(db, r)
  {
    var db' := db[k := r];
    forall fk | Ref(fk, r).Some? ensures Key(Parent(fk), Ref(fk, r).value) != k {
      RefTable(fk, r);
      NoKeyIntoItsOwnTable(fk);
    }
    if Refers(db') {
      forall fk | Ref(fk, r).Some? ensures Key(Parent(fk), Ref(fk, r).value) in db {
        assert Ref(fk, db'[k]).Some?;
      }
    }
  }

  lemma {:induction false} UniqueWith(db: Db, k: Key, r: Row)
    requires AllUnique(db)
    ensures AllUnique(db[k := r]) <==> Unclaimed(db, k, r)
  {
    var db' := db[k := r];
    if AllUnique(db') {
      forall j, u | j in db && j != k && EntryOf(u, r).Some? ensures EntryOf(u, db[j]) != EntryOf(u, r) {
        assert EntryOf(u, db'[k]).Some? && db'[j] == db[j];
      }
    }
    if Unclaimed(db, k, r) {
      forall i, j, u | i in db' && j in db' && i != j && EntryOf(u, db'[i]).Some?
        ensures EntryOf(u, db'[i]) != EntryOf(u, db'[j])
      {
        if i == k {
          assert db'[j] == db[j];
        } else if j == k {
          assert EntryOf(u, r).Some? ==> EntryOf(u, db[i]) != EntryOf(u, r);
        }
      }
    }
  }

  /** One row more, or other: integrity is kept exactly if the row itself is in
      order. */
  lemma {:induction false} OneRow(db: Db, k: Key, r: Row)
    requires Integrity(db) && TableOf(r) == k.table
    ensures Integrity(db[k := r]) <==> Checked(r) && Referring(db, r) && Unclaimed(db, k, r)
  {
    RefersWith(db, k, r);
    UniqueWith(db, k, r);
    assert db[k := r][k] == r;
  }

  /** The two statements that put one row where it is. */
  lemma {:induction false} OneRowStatements(db: Db, k: Key, r: Row)
    requires Integrity(db) && TableOf(r) == k.table
    ensures k !in db ==> (Accepted(db, Insert(map[k := r]), db[k := r]) <==> Integrity(db[k := r]))
    ensures k in db && k.table != Votes ==>
              (Accepted(db, Update(k.table, map[k.id := Placed(k.id, r)]), db[k := r]) <==> Integrity(db[k := r]))
  {
    assert db + map[k := r] == db[k := r];
    if k in db {
      InPlace(db, k, r);
    }
  }

  lemma {:induction false} InPlace(db: Db, k: Key, r: Row)
    requires k in db
    ensures Updated(db, k.table, map[k.id := Placed(k.id, r)], db[k := r])
  {
    var moves := map[k.id := Placed(k.id, r)];
    forall j ensures Matched(db, k.table, moves, j) <==> j == k {
    }
  }

  /** Rows inserted together are accepted exactly if none has the key of another row,
      and each is in order in the database that they are part of: so they may refer
      to each other, and may not collide with each other. */
  lemma {:induction false} RowsAreInserted(db: Db, rows: Db, db': Db)
    requires Integrity(db)
    ensures Accepted(db, Insert(rows), db') <==>
            && (forall k :: k in rows ==> k !in db)
            && (forall k :: k in db' <==> k in db || k in rows)
            && (forall k :: k in db ==> k in db' && db'[k] == db[k])
            && (forall k :: k in rows ==> k in db' && db'[k] == rows[k])
            && (forall k :: k in rows ==>
                  && TableOf(rows[k]) == k.table && Checked(rows[k])
                  && Referring(db', rows[k]) && Unclaimed(db', k, rows[k]))
  {
    if rows.Keys !! db.Keys && db' == db + rows {
      TogetherInOrder(db, rows);
    } else if (forall k :: k in db' <==> k in db || k in rows)
              && (forall k :: k in db ==> k in db' && db'[k] == db[k])
              && (forall k :: k in rows ==> k in db' && db'[k] == rows[k]) {
      assert db' == db + rows;
    }
  }

  lemma {:induction false} TogetherInOrder(db: Db, rows: Db)
    requires Integrity(db) && rows.Keys !! db.Keys
    ensures Integrity(db + rows) <==>
            forall k :: k in rows ==>
              TableOf(rows[k]) == k.table && Checked(rows[k]) && Referring(db + rows, rows[k])
              && Unclaimed(db + rows, k, rows[k])
  {
    var db' := db + rows;
    if forall k :: k in rows ==> Unclaimed(db', k, rows[k]) {
      forall i, j, u | i in db' && j in db' && i != j && EntryOf(u, db'[i]).Some?
        ensures EntryOf(u, db'[i]) != EntryOf(u, db'[j])
      {
        if j in rows {
          assert EntryOf(u, rows[j]).Some? ==> EntryOf(u, db'[i]) != EntryOf(u, rows[j]);
        }
      }
    }
    if Integrity(db') {
      forall k | k in rows ensures Checked(rows[k]) && Referring(db', rows[k]) && Unclaimed(db', k, rows[k]) {
        assert db'[k] == rows[k];
      }
    }
  }

  // ----- table by table -----

  lemma {:induction false} OrganizationIsAccepted(db: Db, k: Key, r: Row)
    requires Integrity(db) && k.table == Organizations && r.Organization?
    ensures Integrity(db[k := r]) <==>
            && (r.fee == None || 0 <= r.fee.value <= 100_00)
            && (r.createdBy == None || Key(Users, r.createdBy.value) in db)
  {
    OneRow(db, k, r);
    assert Ref(OrganizationCreatedBy, r) == r.createdBy;
    assert forall fk :: fk != OrganizationCreatedBy ==> Ref(fk, r) == None;
    assert forall u :: EntryOf(u, r) == None;
  }

  lemma {:induction false} UserIsAccepted(db: Db, k: Key, r: Row)
    requires Integrity(db) && k.table == Users && r.User?
    ensures Integrity(db[k := r]) <==>
            && (r.role == "admin" || r.role == "organizer" || r.role == "candidate")
            && (r.organization == None || Key(Organizations, r.organization.value) in db)
            && forall j :: j in db && j != k && db[j].User? ==> db[j].email != r.email
  {
    OneRow(db, k, r);
    assert Ref(UserOrganization, r) == r.organization;
    assert forall fk :: fk != UserOrganization ==> Ref(fk, r) == None;
    assert forall u :: EntryOf(u, r).Some? <==> u == UserEmail;
    forall j | j in db
      ensures EntryOf(UserEmail, db[j]) == EntryOf(UserEmail, r) <==> db[j].User? && db[j].email == r.email
    {
    }
  }

  lemma {:induction false} ContestIsAccepted(db: Db, k: Key, r: Row)
    requires Integrity(db) && k.table == Contests && r.Contest?
    ensures Integrity(db[k := r]) <==>
            && (r.status == "draft" || r.status == "active" || r.status == "closed")
            && r.startsAt < r.endsAt
            && (r.contestFee == None || 0 <= r.contestFee.value <= 100_00)
            && Key(Organizations, r.organizationId) in db
  {
    OneRow(db, k, r);
    assert Ref(ContestOrganization, r) == Some(r.organizationId);
    assert forall fk :: fk != ContestOrganization ==> Ref(fk, r) == None;
    assert forall u :: EntryOf(u, r) == None;
  }

  lemma {:induction false} CategoryIsAccepted(db: Db, k: Key, r: Row)
    requires Integrity(db) && k.table == Categories && r.Category?
    ensures Integrity(db[k := r]) <==>
            && Key(Contests, r.contestId) in db
            && forall j :: j in db && j != k && db[j].Category? ==>
                 db[j].contestId != r.contestId || db[j].name != r.name
  {
    OneRow(db, k, r);
    assert Ref(CategoryContest, r) == Some(r.contestId);
    assert forall fk :: fk != CategoryContest ==> Ref(fk, r) == None;
    assert forall u :: EntryOf(u, r).Some? <==> u == CategoryName;
    forall j | j in db
      ensures EntryOf(CategoryName, db[j]) == EntryOf(CategoryName, r) <==>
              db[j].Category? && db[j].contestId == r.contestId && db[j].name == r.name
    {
    }
  }

  lemma {:induction false} CandidateIsAccepted(db: Db, k: Key, r: Row)
    requires Integrity(db) && k.table == Candidates && r.Candidate?
    ensures Integrity(db[k := r]) <==>
            && (r.status == "pending_approval" || r.status == "approved" || r.status == "disqualified")
            && (r.status == "disqualified" ==> r.disqualificationReason.Some?)
            && Key(Categories, r.categoryId) in db
            && (r.user == None || Key(Users, r.user.value) in db)
            && forall j :: j in db && j != k && db[j].Candidate? ==> db[j].slug != r.slug
  {
    OneRow(db, k, r);
    assert Ref(CandidateCategory, r) == Some(r.categoryId) && Ref(CandidateUser, r) == r.user;
    assert forall fk :: fk != CandidateCategory && fk != CandidateUser ==> Ref(fk, r) == None;
    assert forall u :: EntryOf(u, r).Some? <==> u == CandidateSlug;
    forall j | j in db
      ensures EntryOf(CandidateSlug, db[j]) == EntryOf(CandidateSlug, r) <==> db[j].Candidate? && db[j].slug == r.slug
    {
    }
  }

  lemma {:induction false} PackageIsAccepted(db: Db, k: Key, r: Row)
    requires Integrity(db) && k.table == VotePackages && r.VotePackage?
    ensures Integrity(db[k := r]) <==> r.amountKobo > 0 && r.voteCount > 0 && Key(Contests, r.contestId) in db
  {
    OneRow(db, k, r);
    assert Ref(PackageContest, r) == Some(r.contestId);
    assert forall fk :: fk != PackageContest ==> Ref(fk, r) == None;
    assert forall u :: EntryOf(u, r) == None;
  }

  lemma {:induction false} SubaccountIsAccepted(db: Db, k: Key, r: Row)
    requires Integrity(db) && k.table == Subaccounts && r.Subaccount?
    ensures Integrity(db[k := r]) <==>
            && (r.status == "pending" || r.status == "verified")
            && (r.status == "verified" ==> r.code.Some?)
            && (r.percentageCharge == None || 0 <= r.percentageCharge.value <= 100_00)
            && Key(Candidates, r.candidateId) in db
            && (forall j :: j in db && j != k && db[j].Subaccount? ==>
                  db[j].candidateId != r.candidateId && (r.code.Some? ==> db[j].code != r.code))
  {
    OneRow(db, k, r);
    assert Ref(SubaccountCandidate, r) == Some(r.candidateId);
    assert forall fk :: fk != SubaccountCandidate ==> Ref(fk, r) == None;
    assert forall u :: EntryOf(u, r).Some? <==> u == SubaccountOwner || (u == SubaccountCode && r.code.Some?);
    forall j | j in db
      ensures EntryOf(SubaccountOwner, db[j]) == EntryOf(SubaccountOwner, r) <==>
              db[j].Subaccount? && db[j].candidateId == r.candidateId
      ensures r.code.Some? ==>
                (EntryOf(SubaccountCode, db[j]) == EntryOf(SubaccountCode, r) <==>
                 db[j].Subaccount? && db[j].code == r.code)
    {
    }
  }

  /** Two transactions that the partial index keeps apart: both enforce the cap, in
      one contest and for one number, and neither has failed. */
  predicate SameIdentity(a: Row, b: Row) {
    && a.Transaction? && b.Transaction? && a.enforceCap && b.enforceCap
    && a.contestId == b.contestId && a.matric == b.matric
    && a.status != "failed" && b.status != "failed"
  }

  lemma {:induction false} CapEntries(a: Row, b: Row)
    requires a.Transaction? && Checked(a) && Checked(b)
    ensures EntryOf(IdentityCap, a).Some? && EntryOf(IdentityCap, b) == EntryOf(IdentityCap, a) <==> SameIdentity(a, b)
    ensures EntryOf(TransactionReference, b) == EntryOf(TransactionReference, a) <==>
            b.Transaction? && b.reference == a.reference
  {
  }

  lemma {:induction false} TransactionEntries(r: Row, u: Unique)
    requires r.Transaction? && u != TransactionReference && u != IdentityCap
    ensures EntryOf(u, r) == None
  {
  }

  lemma {:induction false} TransactionUnclaimed(db: Db, k: Key, r: Row)
    requires AllChecked(db) && r.Transaction? && Checked(r)
    ensures Unclaimed(db, k, r) <==>
            forall j :: j in db && j != k && db[j].Transaction? ==>
              db[j].reference != r.reference && !SameIdentity(r, db[j])
  {
    forall u | u != TransactionReference && u != IdentityCap ensures EntryOf(u, r) == None {
      TransactionEntries(r, u);
    }
    forall j | j in db
      ensures EntryOf(IdentityCap, r).Some? && EntryOf(IdentityCap, db[j]) == EntryOf(IdentityCap, r) <==>
              SameIdentity(r, db[j])
      ensures EntryOf(TransactionReference, db[j]) == EntryOf(TransactionReference, r) <==>
              db[j].Transaction? && db[j].reference == r.reference
    {
      CapEntries(r, db[j]);
    }
    assert EntryOf(TransactionReference, r).Some?;
  }

  lemma {:induction false} TransactionReferring(db: Db, r: Row)
    requires r.Transaction?
    ensures Referring(db, r) <==>
            && Key(Candidates, r.candidateId) in db
            && Key(VotePackages, r.packageId) in db
            && Key(Contests, r.contestId) in db
  {
    assert Ref(TransactionCandidate, r) == Some(r.candidateId);
    assert Ref(TransactionPackage, r) == Some(r.packageId);
    assert Ref(TransactionContest, r) == Some(r.contestId);
    forall fk | fk != TransactionCandidate && fk != TransactionPackage && fk != TransactionContest
      ensures Ref(fk, r) == None
    {
    }
  }

  lemma {:induction false} TransactionIsAccepted(db: Db, k: Key, r: Row)
    requires Integrity(db) && k.table == Transactions && r.Transaction?
    ensures Integrity(db[k := r]) <==>
            && (r.status == "pending" || r.status == "success" || r.status == "failed")
            && r.amountKobo > 0
            && (r.status == "success" ==> r.confirmedAt.Some?)
            && (r.enforceCap ==> r.matric.Some?)
            && Key(Candidates, r.candidateId) in db
            && Key(VotePackages, r.packageId) in db
            && Key(Contests, r.contestId) in db
            && (forall j :: j in db && j != k && db[j].Transaction? ==>
                  && db[j].reference != r.reference
                  && !(r.enforceCap && db[j].enforceCap && r.status != "failed" && db[j].status != "failed"
                       && r.contestId == db[j].contestId && r.matric == db[j].matric))
  {
    OneRow(db, k, r);
    TransactionReferring(db, r);
    if Checked(r) {
      TransactionUnclaimed(db, k, r);
    }
  }

  lemma {:induction false} VoteIsAccepted(db: Db, k: Key, r: Row)
    requires Integrity(db) && k.table == Votes && r.Vote?
    ensures Integrity(db[k := r]) <==> Key(Transactions, r.transactionId) in db && Key(Candidates, r.candidateId) in db
  {
    OneRow(db, k, r);
    assert Ref(VoteTransaction, r) == Some(r.transactionId) && Ref(VoteCandidate, r) == Some(r.candidateId);
    assert forall fk :: fk != VoteTransaction && fk != VoteCandidate ==> Ref(fk, r) == None;
    assert forall u :: EntryOf(u, r) == None;
  }

  lemma {:induction false} SettlementIsAccepted(db: Db, k: Key, r: Row)
    requires Integrity(db) && k.table == Settlements && r.Settlement?
    ensures Integrity(db[k := r]) <==>
            && (r.status == "held" || r.status == "released" || r.status == "reversed")
            && r.amountKobo >= 0
            && r.periodStart <= r.periodEnd
            && (r.status != "held" ==> r.actionedAt.Some?)
            && Key(Candidates, r.candidateId) in db
            && (r.actionedBy == None || Key(Users, r.actionedBy.value) in db)
  {
    OneRow(db, k, r);
    assert Ref(SettlementCandidate, r) == Some(r.candidateId) && Ref(SettlementUser, r) == r.actionedBy;
    assert forall fk :: fk != SettlementCandidate && fk != SettlementUser ==> Ref(fk, r) == None;
    assert forall u :: EntryOf(u, r) == None;
  }

  // ----- TRUNCATE and UPDATE -----

  lemma {:induction false} LeavesAreClosed(tables: set<Table>)
    requires tables <= {Subaccounts, Settlements}
    ensures TruncateClosure(tables) == tables
  {
    forall fk ensures Parent(fk) !in tables {
    }
    TruncateClosureIsLeast(tables, tables);
  }

  /** TRUNCATE is accepted for subaccounts and settlements alone, and then empties
      the tables that it names and no other. */
  lemma {:induction false} TruncateEmptiesWhatItNames(db: Db, tables: set<Table>, cascade: bool, db': Db)
    ensures Accepted(db, Truncate(tables, cascade), db') <==>
            && tables != {} && tables <= {Subaccounts, Settlements}
            && (forall k :: k in db' <==> k in db && k.table !in tables)
            && (forall k :: k in db' ==> db'[k] == db[k])
  {
    if tables != {} {
      TruncatableTables(tables, cascade);
      if tables <= {Subaccounts, Settlements} {
        LeavesAreClosed(tables);
      }
    }
  }

  /** Where an UPDATE takes a row. */
  function Target(db: Db, table: Table, moves: map<Id, Placed>, k: Key): Key {
    if Matched(db, table, moves, k) then Key(table, moves[k.id].id) else k
  }

  ghost function Targets(db: Db, table: Table, moves: map<Id, Placed>, ks: set<Key>): set<Key> {
    set k | k in ks :: Target(db, table, moves, k)
  }

  lemma {:induction false} OneMoreTarget(db: Db, table: Table, moves: map<Id, Placed>, ks: set<Key>, k: Key)
    requires k in ks
    ensures Targets(db, table, moves, ks) == Targets(db, table, moves, ks - {k}) + {Target(db, table, moves, k)}
  {
    forall j ensures j in ks <==> j in ks - {k} || j == k {
    }
  }

  /** No two rows of `ks` are taken to one place. */
  ghost predicate Apart(db: Db, table: Table, moves: map<Id, Placed>, ks: set<Key>) {
    forall j, k :: j in ks && k in ks && j != k ==> Target(db, table, moves, j) != Target(db, table, moves, k)
  }

  lemma {:induction false} OthersApart(db: Db, table: Table, moves: map<Id, Placed>, ks: set<Key>, k: Key)
    requires k in ks && Apart(db, table, moves, ks)
    ensures Apart(db, table, moves, ks - {k})
    ensures Target(db, table, moves, k) !in Targets(db, table, moves, ks - {k})
  {
  }

  lemma {:induction false} AsManyTargets(db: Db, table: Table, moves: map<Id, Placed>, ks: set<Key>)
    requires Apart(db, table, moves, ks)
    ensures |Targets(db, table, moves, ks)| == |ks|
    decreases |ks|
  {
    if |ks| > 0 {
      var k :| k in ks;
      OthersApart(db, table, moves, ks, k);
      AsManyTargets(db, table, moves, ks - {k});
      OneMoreTarget(db, table, moves, ks, k);
    } else {
      assert Targets(db, table, moves, ks) == {};
    }
  }

  lemma {:induction false} TargetsAreFilled(db: Db, table: Table, moves: map<Id, Placed>, db': Db, j: Key)
    requires Updated(db, table, moves, db') && j in db
    ensures Target(db, table, moves, j) in db'
  {
  }

  lemma {:induction false} OnlyTargetsAreFilled(
    db: Db, table: Table, moves: map<Id, Placed>, db': Db, k: Key) returns (j: Key)
    requires Updated(db, table, moves, db') && k in db'
    ensures j in db && Target(db, table, moves, j) == k
  {
    if k in db && !Matched(db, table, moves, k) {
      j := k;
    } else {
      j :| Matched(db, table, moves, j) && k == Key(table, moves[j.id].id);
    }
  }

  lemma {:induction false} UpdateReachesTheTargets(db: Db, table: Table, moves: map<Id, Placed>, db': Db)
    requires Updated(db, table, moves, db')
    ensures db'.Keys == Targets(db, table, moves, db.Keys)
  {
    forall k | k in db' ensures k in Targets(db, table, moves, db.Keys) {
      var j := OnlyTargetsAreFilled(db, table, moves, db', k);
    }
    forall j | j in db ensures Target(db, table, moves, j) in db' {
      TargetsAreFilled(db, table, moves, db', j);
    }
  }

  /** Every row is afterwards where the UPDATE takes it, with the new contents if it
      matched and its own if not; no two end in one place; and there are no others. */
  ghost predicate MovesEveryRow(db: Db, table: Table, moves: map<Id, Placed>, db': Db) {
    && Apart(db, table, moves, db.Keys)
    && db'.Keys == Targets(db, table, moves, db.Keys)
    && forall k :: k in db ==>
         var j := Target(db, table, moves, k);
         j in db' && db'[j] == if Matched(db, table, moves, k) then moves[k.id].row else db[k]
  }

  lemma {:induction false} UpdateMovesEveryRow(db: Db, table: Table, moves: map<Id, Placed>, db': Db)
    requires Updated(db, table, moves, db')
    ensures MovesEveryRow(db, table, moves, db')
  {
    UpdateReachesTheTargets(db, table, moves, db');
    DistinctTargets(db, table, moves, db');
    forall k | k in db ensures Target(db, table, moves, k) in db' {
      TargetsAreFilled(db, table, moves, db', k);
    }
  }

  lemma {:induction false} MovingMoves(db: Db, table: Table, moves: map<Id, Placed>, db': Db)
    requires MovesEveryRow(db, table, moves, db')
    ensures MatchedMoved(db, table, moves, db') && OthersStayed(db, table, moves, db')
  {
  }

  lemma {:induction false} ApartNoneMet(db: Db, table: Table, moves: map<Id, Placed>)
    requires Apart(db, table, moves, db.Keys)
    ensures NoneMet(db, table, moves)
  {
    forall j, k | Matched(db, table, moves, j) && k in db && j != k
      ensures if Matched(db, table, moves, k) then moves[j.id].id != moves[k.id].id else k != Key(table, moves[j.id].id)
    {
      assert Target(db, table, moves, j) != Target(db, table, moves, k);
    }
  }

  lemma {:induction false} MovedFrom(db: Db, table: Table, moves: map<Id, Placed>, db': Db, k: Key)
    requires MovesEveryRow(db, table, moves, db') && k in db' && (k !in db || Matched(db, table, moves, k))
    ensures exists j :: Matched(db, table, moves, j) && k == Key(table, moves[j.id].id)
  {
    var j :| j in db && Target(db, table, moves, j) == k;
  }

  lemma {:induction false} MovingMakesNothing(db: Db, table: Table, moves: map<Id, Placed>, db': Db)
    requires MovesEveryRow(db, table, moves, db')
    ensures NothingElse(db, table, moves, db')
  {
    forall k | k in db' && (k !in db || Matched(db, table, moves, k))
      ensures exists j :: Matched(db, table, moves, j) && k == Key(table, moves[j.id].id)
    {
      MovedFrom(db, table, moves, db', k);
    }
  }

  lemma {:induction false} UpdatedMeans(db: Db, table: Table, moves: map<Id, Placed>, db': Db)
    ensures Updated(db, table, moves, db') <==> MovesEveryRow(db, table, moves, db')
  {
    if Updated(db, table, moves, db') {
      UpdateMovesEveryRow(db, table, moves, db');
    }
    if MovesEveryRow(db, table, moves, db') {
      MovingMoves(db, table, moves, db');
      ApartNoneMet(db, table, moves);
      MovingMakesNothing(db, table, moves, db');
    }
  }

  /** No row of the table is one that the UPDATE names. */
  ghost predicate NamesNone(db: Db, table: Table, moves: map<Id, Placed>) {
    forall k :: k in db && k.table == table ==> k.id !in moves
  }

  lemma {:induction false} NamesNoneMeans(db: Db, table: Table, moves: map<Id, Placed>)
    ensures NoneMatched(db, table, moves) <==> NamesNone(db, table, moves)
  {
    forall k ensures Matched(db, table, moves, k) <==> k in db && k.table == table && k.id in moves {
    }
  }

  /** An UPDATE is accepted, and leaves `db'`, exactly when it names no vote, takes no
      two rows to one place, `db'` has every row where it is taken, with its contents
      new or old, and integrity holds there. */
  lemma {:induction false} UpdateIsAccepted(db: Db, table: Table, moves: map<Id, Placed>, db': Db)
    ensures Accepted(db, Update(table, moves), db') <==>
            && (table == Votes ==> NamesNone(db, table, moves))
            && MovesEveryRow(db, table, moves, db')
            && Integrity(db')
  {
    UpdatedMeans(db, table, moves, db');
    NamesNoneMeans(db, table, moves);
  }

  /** It makes and loses no row. */
  lemma {:induction false} UpdateKeepsTheNumberOfRows(db: Db, table: Table, moves: map<Id, Placed>, db': Db)
    requires Accepted(db, Update(table, moves), db')
    ensures |db'.Keys| == |db.Keys|
  {
    UpdatedMeans(db, table, moves, db');
    AsManyTargets(db, table, moves, db.Keys);
  }

  lemma {:induction false} DistinctTargets(db: Db, table: Table, moves: map<Id, Placed>, db': Db)
    requires Updated(db, table, moves, db')
    ensures Apart(db, table, moves, db.Keys)
  {
  }
}
