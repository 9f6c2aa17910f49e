/**
 The other way to delete: SQLAlchemy walks the relationships of the models,
 marks the children of "all, delete-orphan" collections, sets the foreign key of
 other loaded children to null, and deletes the marked rows children first.  It
 accepts the same deletions as the database's own foreign-key actions, with the
 same result.
 */
module Orm {
  import opened Options
  import opened Schema
  import opened Cascade
  import opened CascadeProof

  /** What the parent's side of a key does with its children: nothing where the
      parent's model has no relationship. */
  datatype Rule = Orphan | Detach | Leave

  function RuleOf(fk: Fk): Rule {
    match fk
    case ContestOrganization => Orphan     // Organization.contests
    case UserOrganization => Detach        // Organization.users
    case CandidateUser => Detach           // User.candidates
    case OrganizationCreatedBy => Leave
    case SettlementUser => Leave
    case CategoryContest => Orphan         // Contest.categories
    case PackageContest => Orphan          // Contest.vote_packages
    case TransactionContest => Leave
    case CandidateCategory => Orphan       // Category.candidates
    case SubaccountCandidate => Orphan     // Candidate.subaccount
    case TransactionCandidate => Detach    // Candidate.transactions
    case VoteCandidate => Detach           // Candidate.votes
    case SettlementCandidate => Detach     // Candidate.settlements
    case TransactionPackage => Detach      // VotePackage.transactions
    case VoteTransaction => Detach         // Transaction.votes
  }

  predicate Nullable(fk: Fk) {
    NullableFk(Child(fk)) == Some(fk)
  }

  /** Closed under delete-orphan collections. */
  ghost predicate OrphansIn(db: Db, s: set<Key>) {
    forall c, p, fk :: c in db && p in s && RuleOf(fk) == Orphan && PointsAt(fk, db[c], p) ==> c in s
  }

  /** `d` is what `session.delete` marks: `k` and its orphans, and theirs. */
  ghost predicate Marks(db: Db, k: Key, d: set<Key>) {
    && k in d && d <= db.Keys && OrphansIn(db, d)
    && forall s: set<Key> :: k in s && OrphansIn(db, s) ==> d <= s
  }

  /** Some child would have a NOT NULL column set to null. */
  ghost predicate DetachFails(db: Db, d: set<Key>) {
    exists c, p, fk :: c in db && c !in d && p in d && RuleOf(fk) == Detach && PointsAt(fk, db[c], p) && !Nullable(fk)
  }

  /** The children that are not marked lose their reference. */
  ghost function Detached(db: Db, d: set<Key>): Db {
    map c | c in db ::
      if c !in d && LosesRef(db[c], d) && RuleOf(NullableFk(TableOf(db[c])).value) == Detach then WithoutRef(db[c])
      else db[c]
  }

  /** One DELETE statement per marked row. */
  ghost function DeleteEach(db: Db, order: seq<Key>): Option<Db> {
    if order == [] then Some(db)
    else match DeleteResult(db, {order[0]})
         case None => None
         case Some(db') => DeleteEach(db', order[1..])
  }

  ghost function Flush(db: Db, d: set<Key>, order: seq<Key>): Option<Db> {
    if DetachFails(db, d) then None else DeleteEach(Detached(db, d), order)
  }

  /** The order of the unit of work: every row once, after whatever goes with it. */
  ghost predicate ChildrenFirst(db: Db, d: set<Key>, order: seq<Key>) {
    && (forall k :: k in d <==> k in order)
    && (forall i, j :: 0 <= i < j < |order| ==> order[i] != order[j])
    && (forall i, j :: 0 <= i < |order| && 0 <= j < |order| && GoesWith(db, order[i], order[j]) && i != j ==> i < j)
  }

  // ----- the two sets of rules agree -----

  lemma {:induction false} RulesAgree(fk: Fk)
    ensures RuleOf(fk) == Orphan <==> OnDelete(fk) == Cascade
    ensures Nullable(fk) <==> OnDelete(fk) == SetNull
    ensures RuleOf(fk) == Detach && !Nullable(fk) ==> OnDelete(fk) == Restrict
  {
  }

  lemma {:induction false} OrphansAreCascaded(db: Db, s: set<Key>)
    ensures OrphansIn(db, s) <==> Closed(db, s)
  {
    forall fk ensures RuleOf(fk) == Orphan <==> OnDelete(fk) == Cascade {
      RulesAgree(fk);
    }
    if OrphansIn(db, s) {
      forall c, p | p in s && GoesWith(db, c, p) ensures c in s {
        var fk :| OnDelete(fk) == Cascade && PointsAt(fk, db[c], p);
      }
    }
    if Closed(db, s) {
      forall c, p, fk | c in db && p in s && RuleOf(fk) == Orphan && PointsAt(fk, db[c], p) ensures c in s {
        assert GoesWith(db, c, p);
      }
    }
  }

  lemma {:induction false} MarksAreTheClosure(db: Db, k: Key, d: set<Key>)
    requires k in db && Marks(db, k, d)
    ensures d == Closure(db, {k})
  {
    OrphansAreCascaded(db, d);
    OrphansAreCascaded(db, Closure(db, {k}));
    ClosureIsLeast(db, {k}, d);
  }

  lemma {:induction false} DetachFailureIsBlocked(db: Db, d: set<Key>)
    requires DetachFails(db, d)
    ensures Blocked(db, d)
  {
    var c, p, fk :| c in db && c !in d && p in d && RuleOf(fk) == Detach && PointsAt(fk, db[c], p) && !Nullable(fk);
    RulesAgree(fk);
  }

  // ----- the DELETE statements, one after another -----

  /** `e` is the database after the marked rows `done` have been deleted. */
  ghost predicate Reached(db: Db, d: set<Key>, done: set<Key>, e: Db) {
    && done <= d
    && e.Keys == db.Keys - done
    && (forall c :: c in e ==> Worn(db[c], e[c], d))
    && (forall c :: c in e && c !in d && LosesRef(db[c], done) ==> e[c] == WithoutRef(db[c]))
    && (forall c :: c in e && c !in d && LosesRef(db[c], d) && RuleOf(NullableFk(TableOf(db[c])).value) == Detach ==>
          e[c] == WithoutRef(db[c]))
    && !Blocked(db, done)
  }

  lemma {:induction false} DetachedIsReached(db: Db, d: set<Key>)
    ensures Reached(db, d, {}, Detached(db, d))
  {
  }

  /** All that goes with `p` has gone before. */
  ghost predicate NextToGo(db: Db, d: set<Key>, done: set<Key>, p: Key) {
    p in d && p !in done && forall c :: GoesWith(db, c, p) ==> c in done
  }

  lemma {:induction false} AloneToGo(db: Db, d: set<Key>, done: set<Key>, e: Db, p: Key)
    requires Reached(db, d, done, e) && NextToGo(db, d, done, p) && p in db
    ensures p in e && Closure(e, {p}) == {p}
  {
    forall c ensures !GoesWith(e, c, p) {
      if GoesWith(e, c, p) {
        var fk :| OnDelete(fk) == Cascade && PointsAt(fk, e[c], p);
        WornRef(db[c], e[c], d, fk);
      }
    }
    ClosureIsLeast(e, {p}, {p});
  }

  /** What refers to `p` through a RESTRICT key is not marked. */
  ghost predicate HoldersStay(db: Db, d: set<Key>, p: Key) {
    forall c, fk :: c in db && OnDelete(fk) == Restrict && PointsAt(fk, db[c], p) ==> c !in d
  }

  lemma {:induction false} HoldersAreNotMarked(db: Db, k: Key, p: Key)
    requires Typed(db) && k in db && p in Closure(db, {k})
    ensures HoldersStay(db, Closure(db, {k}), p)
  {
    forall c, fk | c in db && OnDelete(fk) == Restrict && PointsAt(fk, db[c], p) ensures c !in Closure(db, {k}) {
      RestrictHoldersStay(db, {k}, c, p, fk);
    }
  }

  lemma {:induction false} BlockedTogether(db: Db, d: set<Key>, done: set<Key>, e: Db, p: Key)
    requires Reached(db, d, done, e) && p in d && p !in done && HoldersStay(db, d, p)
    ensures Blocked(e, {p}) ==> Blocked(db, d)
    ensures !Blocked(e, {p}) ==> !Blocked(db, done + {p})
  {
    if Blocked(e, {p}) {
      var c, q, fk :| c in e && c !in {p} && q in {p} && OnDelete(fk) == Restrict && PointsAt(fk, e[c], q);
      WornRef(db[c], e[c], d, fk);
      assert c !in d && p in d && PointsAt(fk, db[c], p);
    } else if Blocked(db, done + {p}) {
      var c, q, fk :|
        c in db && c !in done + {p} && q in done + {p} && OnDelete(fk) == Restrict && PointsAt(fk, db[c], q);
      WornRef(db[c], e[c], d, fk);
      assert q == p ==> Blocked(e, {p});
      assert q in done ==> Blocked(db, done);
      assert false;
    }
  }

  lemma {:induction false} WornThenNulled(r0: Row, r: Row, d: set<Key>, p: Key)
    requires Worn(r0, r, d) && p in d
    ensures Worn(r0, Nulled(r, {p}), d)
    ensures r == WithoutRefIfAny(r0) && NullableFk(TableOf(r0)).Some? ==> Nulled(r, {p}) == r
    ensures r == r0 && LosesRef(r0, {p}) ==> Nulled(r, {p}) == WithoutRef(r0)
  {
    if r != r0 {
      NullableKeysAreSetNull(TableOf(r0));
      ClearedRef(NullableFk(TableOf(r0)).value, r0, NullableFk(TableOf(r0)).value);
    } else if NullableFk(TableOf(r0)).Some? && r == WithoutRefIfAny(r0) {
      NullableKeysAreSetNull(TableOf(r0));
      ClearedRef(NullableFk(TableOf(r0)).value, r0, NullableFk(TableOf(r0)).value);
    }
  }

  function WithoutRefIfAny(r: Row): Row {
    if NullableFk(TableOf(r)).Some? then WithoutRef(r) else r
  }

  lemma {:induction false} OneDelete(db: Db, d: set<Key>, done: set<Key>, e: Db, p: Key)
    requires Reached(db, d, done, e) && NextToGo(db, d, done, p) && p in db && p.table != Votes
    requires HoldersStay(db, d, p)
    ensures DeleteResult(e, {p}) == None ==> Blocked(db, d)
    ensures DeleteResult(e, {p}).Some? ==> Reached(db, d, done + {p}, DeleteResult(e, {p}).value)
  {
    AloneToGo(db, d, done, e, p);
    BlockedTogether(db, d, done, e, p);
    assert {p} * e.Keys == {p};
    if !Blocked(e, {p}) {
      var e' := Survivors(e, {p});
      forall c | c in e'
        ensures Worn(db[c], e'[c], d)
        ensures c !in d && LosesRef(db[c], done + {p}) ==> e'[c] == WithoutRef(db[c])
        ensures c !in d && LosesRef(db[c], d) && RuleOf(NullableFk(TableOf(db[c])).value) == Detach ==>
                  e'[c] == WithoutRef(db[c])
      {
        WornThenNulled(db[c], e[c], d, p);
      }
    }
  }

  ghost function Done(order: seq<Key>, i: nat): set<Key>
    requires i <= |order|
  {
    set j | 0 <= j < i :: order[j]
  }

  lemma {:induction false} AllDone(db: Db, d: set<Key>, order: seq<Key>, e: Db)
    requires ChildrenFirst(db, d, order) && Reached(db, d, Done(order, |order|), e)
    ensures !Blocked(db, d) && e == Survivors(db, d)
  {
    assert Done(order, |order|) == d;
    forall c | c in e ensures e[c] == Nulled(db[c], d) {
      assert Worn(db[c], e[c], d);
    }
  }

  lemma {:induction false} NoRowGoesWithItself(db: Db, c: Key)
    ensures Typed(db) ==> !GoesWith(db, c, c)
  {
  }

  lemma {:induction false} NextInOrder(db: Db, d: set<Key>, order: seq<Key>, i: nat)
    requires Typed(db) && Closed(db, d) && ChildrenFirst(db, d, order) && i < |order|
    ensures NextToGo(db, d, Done(order, i), order[i])
  {
    forall c | GoesWith(db, c, order[i]) ensures c in Done(order, i) {
      assert c in d && c in order;
      NoRowGoesWithItself(db, c);
      var j :| 0 <= j < |order| && order[j] == c;
      assert j < i;
    }
  }

  /** How far below the root of the cascade a table lies. */
  function Depth(t: Table): nat {
    match t
    case Contests => 1
    case Categories => 2
    case VotePackages => 2
    case Candidates => 3
    case Subaccounts => 4
    case _ => 0
  }

  lemma {:induction false} FollowersAreDeeper(db: Db, c: Key, p: Key)
    requires Typed(db) && GoesWith(db, c, p)
    ensures Depth(c.table) > Depth(p.table)
  {
  }

  lemma {:induction false} ShallowestOf(d: set<Key>) returns (p: Key)
    requires d != {}
    ensures p in d && forall q :: q in d ==> Depth(p.table) <= Depth(q.table)
  {
    p :| p in d;
    var rest := d - {p};
    if rest != {} {
      var q := ShallowestOf(rest);
      p := if Depth(q.table) < Depth(p.table) then q else p;
    }
  }

  /** The cascading keys have no cycle, so the unit of work can always find an
      order. */
  lemma {:induction false} AnOrderExists(db: Db, d: set<Key>) returns (order: seq<Key>)
    requires Typed(db)
    ensures ChildrenFirst(db, d, order)
  {
    if d == {} {
      order := [];
    } else {
      var p := ShallowestOf(d);
      var before := AnOrderExists(db, d - {p});
      order := before + [p];
      forall q | q in d && GoesWith(db, p, q) ensures false {
        FollowersAreDeeper(db, p, q);
      }
      forall k ensures k in d <==> k in order {
        assert k in d - {p} <==> k in before;
      }
    }
  }

  lemma {:induction false} NextDelete(db: Db, k: Key, order: seq<Key>, i: nat, e: Db)
    requires Typed(db) && k in db && k.table != Votes
    requires ChildrenFirst(db, Closure(db, {k}), order) && i < |order|
    requires Reached(db, Closure(db, {k}), Done(order, i), e)
    ensures DeleteResult(e, {order[i]}) == None ==> Blocked(db, Closure(db, {k}))
    ensures DeleteResult(e, {order[i]}).Some? ==>
              Reached(db, Closure(db, {k}), Done(order, i + 1), DeleteResult(e, {order[i]}).value)
  {
    var d, p := Closure(db, {k}), order[i];
    assert p in d;
    assert p.table != Votes by {
      NoVoteInClosure(db, k);
    }
    assert Done(order, i) + {p} == Done(order, i + 1);
    NextInOrder(db, d, order, i);
    HoldersAreNotMarked(db, k, p);
    OneDelete(db, d, Done(order, i), e, p);
  }

  lemma {:induction false} DeletesReachTheResult(db: Db, k: Key, order: seq<Key>, i: nat, e: Db)
    requires Typed(db) && k in db && k.table != Votes
    requires ChildrenFirst(db, Closure(db, {k}), order) && i <= |order|
    requires Reached(db, Closure(db, {k}), Done(order, i), e)
    ensures DeleteEach(e, order[i..]) ==
            if Blocked(db, Closure(db, {k})) then None else Some(Survivors(db, Closure(db, {k})))
    decreases |order| - i
  {
    if i == |order| {
      AllDone(db, Closure(db, {k}), order, e);
    } else {
      NextDelete(db, k, order, i, e);
      assert order[i..][0] == order[i] && order[i..][1..] == order[i + 1..];
      if DeleteResult(e, {order[i]}).Some? {
        DeletesReachTheResult(db, k, order, i + 1, DeleteResult(e, {order[i]}).value);
      }
    }
  }

  lemma {:induction false} NoVoteInClosure(db: Db, k: Key)
    requires Typed(db) && k in db && k.table != Votes
    ensures !AnyVote(Closure(db, {k}))
  {
    forall v | v in Closure(db, {k}) ensures v.table != Votes {
      if v.table == Votes {
        RestrictHoldersAreNotCascaded(db, {k}, v, VoteTransaction);
      }
    }
  }

  /** Deleting a row through the ORM, whatever order of statements its unit of
      work picks, is refused exactly when the database alone would refuse it, and
      leaves exactly the database that it would have left. */
  lemma {:induction false} OrmAgreesWithTheDatabase(db: Db, k: Key, d: set<Key>, order: seq<Key>)
    requires Typed(db) && k in db && Marks(db, k, d) && ChildrenFirst(db, d, order)
    ensures Flush(db, d, order) == DeleteResult(db, {k})
  {
    MarksAreTheClosure(db, k, d);
    assert {k} * db.Keys == {k};
    if DetachFails(db, d) {
      DetachFailureIsBlocked(db, d);
    } else if k.table == Votes {
      VotesGoAlone(db, k, d, order);
    } else {
      assert order[0..] == order;
      DetachedIsReached(db, d);
      assert Done(order, 0) == {};
      DeletesReachTheResult(db, k, order, 0, Detached(db, d));
    }
  }

  lemma {:induction false} VotesGoAlone(db: Db, k: Key, d: set<Key>, order: seq<Key>)
    requires Typed(db) && k in db && k.table == Votes && d == Closure(db, {k}) && ChildrenFirst(db, d, order)
    ensures DeleteEach(Detached(db, d), order) == None
  {
    RestrictTablesDoNotSpread(db, {k}, VoteTransaction);
    assert d == {k};
    assert k in order;
    assert order[0] in d;
    assert AnyVote({k} * Detached(db, d).Keys);
  }
}
