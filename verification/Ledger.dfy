/**
 The two promises the payment evidence rests on, over every run of statements:
 votes are never lost or changed, and one identity holds one vote per capped
 contest.
 */
module Ledger {
  import opened Options
  import opened Schema
  import opened Cascade
  import opened CascadeProof
  import opened Statements
  import opened Acceptance

  /** The states between the statements of a history. */
  ghost predicate History(dbs: seq<Db>, sts: seq<Statement>) {
    && |dbs| == |sts| + 1
    && forall i :: 0 <= i < |sts| ==> Step(dbs[i], sts[i], dbs[i + 1])
  }

  lemma {:induction false} HistoriesKeepIntegrity(dbs: seq<Db>, sts: seq<Statement>, i: nat)
    requires History(dbs, sts) && Integrity(dbs[0]) && i < |dbs|
    ensures Integrity(dbs[i])
  {
    if i > 0 {
      HistoriesKeepIntegrity(dbs, sts, i - 1);
      StepKeepsIntegrity(dbs[i - 1], sts[i - 1], dbs[i]);
    }
  }

  // ----- votes -----

  /** Every vote is still there, unchanged. */
  ghost predicate VotesKept(db: Db, db': Db) {
    forall v :: v in db && v.table == Votes ==> v in db' && db'[v] == db[v]
  }

  lemma {:induction false} DeleteKeepsVotes(db: Db, keys: set<Key>)
    requires Typed(db) && DeleteResult(db, keys).Some?
    ensures VotesKept(db, DeleteResult(db, keys).value)
  {
    var roots := keys * db.Keys;
    forall v | v in db && v.table == Votes ensures v !in Closure(db, roots) {
      if v in Closure(db, roots) {
        RestrictHoldersAreNotCascaded(db, roots, v, VoteTransaction);
      }
    }
  }

  lemma {:induction false} StepKeepsVotes(db: Db, st: Statement, db': Db)
    requires Integrity(db) && Step(db, st, db')
    ensures VotesKept(db, db')
  {
    if db' != db {
      match st
      case Update(table, moves) =>
        forall v | v in db && v.table == Votes ensures v in db' && db'[v] == db[v] {
          assert !Matched(db, table, moves, v);
        }
      case Delete(keys) => DeleteKeepsVotes(db, keys);
      case _ =>
    }
  }

  lemma {:induction false} KeptTwice(a: Db, b: Db, c: Db)
    requires VotesKept(a, b) && VotesKept(b, c)
    ensures VotesKept(a, c)
  {
  }

  /** No run of INSERT, UPDATE, DELETE and TRUNCATE loses or changes a vote. */
  lemma {:induction false} VotesAreForever(dbs: seq<Db>, sts: seq<Statement>, i: nat, j: nat)
    requires History(dbs, sts) && Integrity(dbs[0]) && i <= j < |dbs|
    ensures VotesKept(dbs[i], dbs[j])
    decreases j - i
  {
    if i < j {
      VotesAreForever(dbs, sts, i, j - 1);
      HistoriesKeepIntegrity(dbs, sts, j - 1);
      StepKeepsVotes(dbs[j - 1], sts[j - 1], dbs[j]);
      KeptTwice(dbs[i], dbs[j - 1], dbs[j]);
    }
  }

  // ----- what a vote rests on -----

  /** `c` cannot exist without `p`. */
  ghost predicate RestsOn(db: Db, c: Key, p: Key) {
    c in db && exists fk :: OnDelete(fk) != SetNull && PointsAt(fk, db[c], p)
  }

  /** A chain of references that leads up from a vote. */
  ghost predicate Evidence(db: Db, path: seq<Key>) {
    && path != []
    && path[0] in db && path[0].table == Votes
    && forall i :: 0 <= i < |path| - 1 ==> RestsOn(db, path[i], path[i + 1])
  }

  lemma {:induction false} EvidencePresent(db: Db, path: seq<Key>, i: nat)
    requires Refers(db) && Evidence(db, path) && i < |path|
    ensures path[i] in db
  {
    if i > 0 {
      assert RestsOn(db, path[i - 1], path[i]);
    }
  }

  /** If something under a vote is to go, the vote is to go or the deletion is
      blocked. */
  lemma {:induction false} DeletionReachesTheVote(db: Db, gone: set<Key>, path: seq<Key>, i: nat)
    requires Evidence(db, path) && Closed(db, gone) && i < |path| && path[i] in gone
    ensures path[0] in gone || Blocked(db, gone)
  {
    if i > 0 {
      var c, p := path[i - 1], path[i];
      assert RestsOn(db, c, p);
      var fk :| OnDelete(fk) != SetNull && PointsAt(fk, db[c], p);
      if OnDelete(fk) == Cascade {
        assert GoesWith(db, c, p);
      }
      if c in gone {
        DeletionReachesTheVote(db, gone, path, i - 1);
      }
    }
  }

  /** Nothing that a vote rests on, directly or not, can be deleted. */
  lemma {:induction false} EvidenceIsPinned(db: Db, path: seq<Key>, i: nat, keys: set<Key>)
    requires Integrity(db) && Evidence(db, path) && i < |path| && path[i] in keys
    ensures DeleteResult(db, keys) == None
  {
    var roots := keys * db.Keys;
    EvidencePresent(db, path, i);
    DeletionReachesTheVote(db, Closure(db, roots), path, i);
    if path[0] in Closure(db, roots) {
      RestrictHoldersAreNotCascaded(db, roots, path[0], VoteTransaction);
    }
  }

  /** The row that `k` refers to through `fk`. */
  function Up(db: Db, fk: Fk, k: Key): (p: Key)
    requires Integrity(db) && k in db && k.table == Child(fk) && Ref(fk, db[k]).Some?
    ensures p in db && p.table == Parent(fk)
  {
    Key(Parent(fk), Ref(fk, db[k]).value)
  }

  lemma {:induction false} RequiredRefs(r: Row, fk: Fk)
    requires OnDelete(fk) != SetNull && TableOf(r) == Child(fk)
    ensures Ref(fk, r).Some?
  {
  }

  /** A key that may not be null, followed upwards. */
  function Above(db: Db, fk: Fk, k: Key): (p: Key)
    requires Integrity(db) && k in db && k.table == Child(fk) && OnDelete(fk) != SetNull
    ensures p in db && p.table == Parent(fk)
    ensures RestsOn(db, k, p)
  {
    RequiredRefs(db[k], fk);
    assert PointsAt(fk, db[k], Up(db, fk, k));
    Up(db, fk, k)
  }

  /** The transaction of a vote. */
  function PaymentPath(db: Db, v: Key): seq<Key>
    requires Integrity(db) && v in db && v.table == Votes
  {
    [v, Above(db, VoteTransaction, v)]
  }

  function CandidateOf(db: Db, v: Key): (c: Key)
    requires Integrity(db) && v in db && v.table == Votes
    ensures c in db && c.table == Candidates && RestsOn(db, v, c)
  {
    Above(db, VoteCandidate, v)
  }

  function CategoryOf(db: Db, c: Key): (g: Key)
    requires Integrity(db) && c in db && c.table == Candidates
    ensures g in db && g.table == Categories && RestsOn(db, c, g)
  {
    Above(db, CandidateCategory, c)
  }

  function ContestOf(db: Db, g: Key): (c: Key)
    requires Integrity(db) && g in db && g.table == Categories
    ensures c in db && c.table == Contests && RestsOn(db, g, c)
  {
    Above(db, CategoryContest, g)
  }

  function OrganizationOf(db: Db, c: Key): (o: Key)
    requires Integrity(db) && c in db && c.table == Contests
    ensures o in db && o.table == Organizations && RestsOn(db, c, o)
  {
    Above(db, ContestOrganization, c)
  }

  /** Its candidate, category, contest and organization. */
  function ContestPath(db: Db, v: Key): seq<Key>
    requires Integrity(db) && v in db && v.table == Votes
  {
    var candidate := CandidateOf(db, v);
    var category := CategoryOf(db, candidate);
    var contest := ContestOf(db, category);
    [v, candidate, category, contest, OrganizationOf(db, contest)]
  }

  lemma {:induction false} PaymentPathIsEvidence(db: Db, v: Key)
    requires Integrity(db) && v in db && v.table == Votes
    ensures Evidence(db, PaymentPath(db, v))
  {
  }

  lemma {:induction false} ContestPathIsEvidence(db: Db, v: Key)
    requires Integrity(db) && v in db && v.table == Votes
    ensures Evidence(db, ContestPath(db, v))
  {
  }

  /** Present, and no DELETE can remove it. */
  ghost predicate Pinned(db: Db, k: Key) {
    k in db && forall keys :: k in keys ==> DeleteResult(db, keys) == None
  }

  lemma {:induction false} EvidencePinned(db: Db, path: seq<Key>, i: nat)
    requires Integrity(db) && Evidence(db, path) && i < |path|
    ensures Pinned(db, path[i])
  {
    EvidencePresent(db, path, i);
    forall keys: set<Key> | path[i] in keys ensures DeleteResult(db, keys) == None {
      EvidenceIsPinned(db, path, i, keys);
    }
  }

  /** In every state of every history, whatever was once voted still stands,
      unchanged, with its transaction, candidate, category, contest and
      organization, none of which any DELETE can remove. */
  lemma {:induction false} EvidenceStands(dbs: seq<Db>, sts: seq<Statement>, i: nat, j: nat, v: Key)
    requires History(dbs, sts) && Integrity(dbs[0]) && i <= j < |dbs|
    requires v in dbs[i] && v.table == Votes
    ensures Integrity(dbs[j]) && v in dbs[j] && dbs[j][v] == dbs[i][v]
    ensures forall n :: 0 <= n < 2 ==> Pinned(dbs[j], PaymentPath(dbs[j], v)[n])
    ensures forall n :: 0 <= n < 5 ==> Pinned(dbs[j], ContestPath(dbs[j], v)[n])
  {
    HistoriesKeepIntegrity(dbs, sts, i);
    HistoriesKeepIntegrity(dbs, sts, j);
    VotesAreForever(dbs, sts, i, j);
    PathsPinned(dbs[j], v);
  }

  lemma {:induction false} PathsPinned(db: Db, v: Key)
    requires Integrity(db) && v in db && v.table == Votes
    ensures forall n :: 0 <= n < 2 ==> Pinned(db, PaymentPath(db, v)[n])
    ensures forall n :: 0 <= n < 5 ==> Pinned(db, ContestPath(db, v)[n])
  {
    PaymentPathIsEvidence(db, v);
    ContestPathIsEvidence(db, v);
    var p, c := PaymentPath(db, v), ContestPath(db, v);
    forall n | 0 <= n < 2 ensures Pinned(db, p[n]) {
      EvidencePinned(db, p, n);
    }
    forall n | 0 <= n < 5 ensures Pinned(db, c[n]) {
      EvidencePinned(db, c, n);
    }
  }

  // ----- one vote per identity -----

  /** In every state of every history one matric number has at most one capped
      transaction in a contest that has not failed. */
  lemma {:induction false} OneVotePerIdentity(dbs: seq<Db>, sts: seq<Statement>, i: nat, a: Key, b: Key)
    requires History(dbs, sts) && Integrity(dbs[0]) && i < |dbs| && a in dbs[i] && b in dbs[i]
    requires dbs[i][a].Transaction? && dbs[i][a].enforceCap && dbs[i][a].status != "failed"
    requires dbs[i][b].Transaction? && dbs[i][b].enforceCap && dbs[i][b].status != "failed"
    requires dbs[i][a].contestId == dbs[i][b].contestId && dbs[i][a].matric == dbs[i][b].matric
    ensures a == b
  {
    HistoriesKeepIntegrity(dbs, sts, i);
    CapEntries(dbs[i][a], dbs[i][b]);
  }

  /** Everything but the cap is in order for `r` to stand at `k`. */
  ghost predicate OtherwiseAcceptable(db: Db, k: Key, r: Row) {
    && k.table == Transactions && r.Transaction? && Checked(r) && Referring(db, r)
    && (forall j :: j in db && j != k && db[j].Transaction? ==> db[j].reference != r.reference)
  }

  /** What a full scan of the table would find: another capped transaction of the
      same contest and number that has not failed, while `r` is capped and has not
      failed. */
  ghost predicate IdentityTaken(db: Db, k: Key, r: Row) {
    exists j :: j in db && j != k && SameIdentity(r, db[j])
  }

  /** A transaction can be inserted, or rewritten in any way (a new status, the flag
      set, another contest), exactly when no other live capped transaction holds its
      identity; an uncapped or failed one is never in the way, and never refused. */
  lemma {:induction false} IdentityIsFreeIffNoneHoldsIt(db: Db, k: Key, r: Row)
    requires Integrity(db) && OtherwiseAcceptable(db, k, r)
    ensures Integrity(db[k := r]) <==> !IdentityTaken(db, k, r)
    ensures !r.enforceCap || r.status == "failed" ==> Integrity(db[k := r])
  {
    OneRow(db, k, r);
    TransactionUnclaimed(db, k, r);
  }

  /** The same, as statements. */
  lemma {:induction false} CheckoutIsAcceptedIffIdentityIsFree(db: Db, k: Key, r: Row)
    requires Integrity(db) && OtherwiseAcceptable(db, k, r)
    ensures k !in db ==> (Accepted(db, Insert(map[k := r]), db[k := r]) <==> !IdentityTaken(db, k, r))
    ensures k in db ==>
              (Accepted(db, Update(Transactions, map[k.id := Placed(k.id, r)]), db[k := r]) <==>
               !IdentityTaken(db, k, r))
  {
    IdentityIsFreeIffNoneHoldsIt(db, k, r);
    OneRowStatements(db, k, r);
  }
}
