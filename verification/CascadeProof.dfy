/** Every processing order ends, and ends with the same answer. */
module CascadeProof {
  import opened Options
  import opened Schema
  import opened Cascade

  // ----- facts about the schema -----

  lemma {:induction false} SetNullKeysAreNullable(fk: Fk)
    requires OnDelete(fk) == SetNull
    ensures NullableFk(Child(fk)) == Some(fk)
  {
  }

  lemma {:induction false} NullableKeysAreSetNull(t: Table)
    requires NullableFk(t).Some?
    ensures OnDelete(NullableFk(t).value) == SetNull && Child(NullableFk(t).value) == t
  {
  }

  /** Clearing one key leaves the others alone. */
  lemma {:induction false} ClearedRef(f: Fk, r: Row, fk: Fk)
    requires OnDelete(f) == SetNull && TableOf(r) == Child(f)
    ensures TableOf(Cleared(f, r)) == TableOf(r)
    ensures Ref(fk, Cleared(f, r)) == if fk == f then None else Ref(fk, r)
  {
  }

  /** Nothing cascades into, or out of, a table that holds a RESTRICT key. */
  lemma {:induction false} RestrictTablesAreNotCascaded(fk: Fk, fk': Fk)
    requires OnDelete(fk) == Restrict && OnDelete(fk') == Cascade
    ensures Child(fk) != Child(fk') && Child(fk) != Parent(fk') && Child(fk) != Parent(fk)
  {
  }

  // ----- one step -----

  /** `r` is `r0`, or `r0` without a reference that points into `gone`. */
  ghost predicate Worn(r0: Row, r: Row, gone: set<Key>) {
    r == r0 || (LosesRef(r0, gone) && r == WithoutRef(r0))
  }

  ghost predicate NoRef(db: Db, fk: Fk, d: Key) {
    forall k :: k in db ==> !PointsAt(fk, db[k], d)
  }

  /** Every deleted row has had each key that refers to its table checked, or
      still to be checked. */
  ghost predicate Covered(w: Work) {
    && (forall d, fk :: d in w.gone && Parent(fk) == d.table ==> Todo(d, fk) in w.todo || NoRef(w.db, fk, d))
    && (forall t :: t in w.todo ==> t.parent in w.gone && Parent(t.fk) == t.parent.table)
  }

  ghost predicate Underway(db: Db, roots: set<Key>, w: Work)
    requires roots <= db.Keys
  {
    && roots <= w.gone <= Closure(db, roots)
    && w.db.Keys == db.Keys - w.gone
    && (forall k :: k in w.db ==> Worn(db[k], w.db[k], w.gone))
  }

  lemma {:induction false} WornRef(r0: Row, r: Row, gone: set<Key>, fk: Fk)
    requires Worn(r0, r, gone)
    ensures TableOf(r) == TableOf(r0)
    ensures OnDelete(fk) != SetNull ==> Ref(fk, r) == Ref(fk, r0)
    ensures Ref(fk, r) == Ref(fk, r0) || Ref(fk, r) == None
  {
    if r != r0 {
      NullableKeysAreSetNull(TableOf(r0));
      ClearedRef(NullableFk(TableOf(r0)).value, r0, fk);
    }
  }

  lemma {:induction false} WornMore(r0: Row, r: Row, gone: set<Key>, gone': set<Key>)
    requires Worn(r0, r, gone) && gone <= gone'
    ensures Worn(r0, r, gone')
  {
  }

  lemma {:induction false} SetNullRow(r0: Row, r: Row, gone: set<Key>, t: Todo)
    requires Worn(r0, r, gone) && OnDelete(t.fk) == SetNull && t.parent in gone && PointsAt(t.fk, r, t.parent)
    ensures Worn(r0, Cleared(t.fk, r), gone)
  {
    SetNullKeysAreNullable(t.fk);
    if r != r0 {
      NullableKeysAreSetNull(TableOf(r0));
      ClearedRef(NullableFk(TableOf(r0)).value, r0, t.fk);
    }
  }

  lemma {:induction false} SetNullStep(db: Db, roots: set<Key>, w: Work, t: Todo)
    requires roots <= db.Keys && Underway(db, roots, w) && Covered(w)
    requires t in w.todo && OnDelete(t.fk) == SetNull
    ensures Underway(db, roots, Process(w, t).value)
  {
    var w' := Process(w, t).value;
    forall k | k in w'.db ensures Worn(db[k], w'.db[k], w'.gone) {
      if PointsAt(t.fk, w.db[k], t.parent) {
        SetNullRow(db[k], w.db[k], w.gone, t);
      }
    }
  }

  lemma {:induction false} SetNullCovers(w: Work, t: Todo)
    requires Covered(w) && t in w.todo && OnDelete(t.fk) == SetNull
    ensures Covered(Process(w, t).value)
  {
    var w' := Process(w, t).value;
    forall fk, d, k | k in w.db
      ensures PointsAt(fk, w'.db[k], d) ==> PointsAt(fk, w.db[k], d) && !(fk == t.fk && d == t.parent)
    {
      if PointsAt(t.fk, w.db[k], t.parent) {
        ClearedRef(t.fk, w.db[k], fk);
      }
    }
    forall d, fk | d in w'.gone && Parent(fk) == d.table ensures Todo(d, fk) in w'.todo || NoRef(w'.db, fk, d) {
      assert Todo(d, fk) == t || Todo(d, fk) in w'.todo || NoRef(w.db, fk, d);
    }
  }

  lemma {:induction false} CascadeStep(db: Db, roots: set<Key>, w: Work, t: Todo)
    requires roots <= db.Keys && Underway(db, roots, w) && Covered(w)
    requires t in w.todo && OnDelete(t.fk) == Cascade && Process(w, t).Some?
    ensures Underway(db, roots, Process(w, t).value)
  {
    var w', hit := Process(w, t).value, Pointing(w.db, t);
    forall k | k in hit ensures k in Closure(db, roots) {
      WornRef(db[k], w.db[k], w.gone, t.fk);
      assert GoesWith(db, k, t.parent);
    }
    forall k | k in w'.db ensures Worn(db[k], w'.db[k], w'.gone) {
      WornMore(db[k], w.db[k], w.gone, w'.gone);
    }
  }

  lemma {:induction false} CascadeCovers(w: Work, t: Todo)
    requires Covered(w) && t in w.todo && OnDelete(t.fk) == Cascade && Process(w, t).Some?
    ensures Covered(Process(w, t).value)
  {
    var w', hit := Process(w, t).value, Pointing(w.db, t);
    forall d, fk | d in w'.gone && Parent(fk) == d.table ensures Todo(d, fk) in w'.todo || NoRef(w'.db, fk, d) {
      if d in hit {
        assert Todo(d, fk) in TodosFor(hit);
      } else if Todo(d, fk) == t {
        assert forall k :: k in w'.db ==> k !in hit;
      } else {
        assert Todo(d, fk) in w.todo || NoRef(w.db, fk, d);
      }
    }
  }

  lemma {:induction false} RestrictCovers(w: Work, t: Todo)
    requires Covered(w) && t in w.todo && OnDelete(t.fk) == Restrict && Process(w, t).Some?
    ensures Covered(Process(w, t).value)
  {
    var w' := Process(w, t).value;
    forall d, fk | d in w'.gone && Parent(fk) == d.table ensures Todo(d, fk) in w'.todo || NoRef(w'.db, fk, d) {
      if Todo(d, fk) == t {
        assert forall k :: k in w.db ==> k !in Pointing(w.db, t);
      } else {
        assert Todo(d, fk) in w.todo || NoRef(w.db, fk, d);
      }
    }
  }

  lemma {:induction false} StepKeeps(db: Db, roots: set<Key>, w: Work, t: Todo)
    requires roots <= db.Keys && Underway(db, roots, w) && Covered(w) && t in w.todo && Process(w, t).Some?
    ensures Underway(db, roots, Process(w, t).value) && Covered(Process(w, t).value)
  {
    match OnDelete(t.fk)
    case Restrict => RestrictCovers(w, t);
    case SetNull => SetNullStep(db, roots, w, t); SetNullCovers(w, t);
    case Cascade => CascadeStep(db, roots, w, t); CascadeCovers(w, t);
  }

  // ----- rows that nothing takes along -----

  ghost predicate OneTable(keys: set<Key>) {
    forall j, k :: j in keys && k in keys ==> j.table == k.table
  }

  /** A row that holds a RESTRICT key only goes if it was asked for by name. */
  lemma {:induction false} RestrictHoldersAreNotCascaded(db: Db, roots: set<Key>, k: Key, fk: Fk)
    requires Typed(db) && roots <= db.Keys && OnDelete(fk) == Restrict && k.table == Child(fk)
    requires k in Closure(db, roots)
    ensures k in roots
  {
    var t := set c | c in db.Keys && (c.table == Child(fk) ==> c in roots);
    forall c, p | p in t && GoesWith(db, c, p) ensures c in t {
      var fk' :| OnDelete(fk') == Cascade && PointsAt(fk', db[c], p);
      RestrictTablesAreNotCascaded(fk, fk');
    }
    ClosureIsLeast(db, roots, t);
  }

  lemma {:induction false} RestrictTablesDoNotSpread(db: Db, roots: set<Key>, fk: Fk)
    requires Typed(db) && roots <= db.Keys && OnDelete(fk) == Restrict
    requires forall r :: r in roots ==> r.table == Child(fk)
    ensures Closure(db, roots) == roots
  {
    forall c, p | p in roots ensures !GoesWith(db, c, p) {
      if GoesWith(db, c, p) {
        var fk' :| OnDelete(fk') == Cascade && PointsAt(fk', db[c], p);
        RestrictTablesAreNotCascaded(fk, fk');
        assert false;
      }
    }
    ClosureIsLeast(db, roots, roots);
  }

  /** So whoever refers to a deleted row through a RESTRICT key stays, and
      blocks, however early or late the check is made. */
  lemma {:induction false} RestrictHoldersStay(db: Db, roots: set<Key>, k: Key, p: Key, fk: Fk)
    requires Typed(db) && roots <= db.Keys && OneTable(roots)
    requires k in db && p in Closure(db, roots) && OnDelete(fk) == Restrict && PointsAt(fk, db[k], p)
    ensures k !in Closure(db, roots)
  {
    if k in Closure(db, roots) {
      RestrictHoldersAreNotCascaded(db, roots, k, fk);
      RestrictTablesDoNotSpread(db, roots, fk);
      RestrictTablesAreNotCascaded(fk, ContestOrganization);
      assert false;
    }
  }

  // ----- the end -----

  /** An error means that the deletion is blocked. */
  lemma {:induction false} ErrorMeansBlocked(db: Db, roots: set<Key>, w: Work, t: Todo)
    requires Typed(db) && roots <= db.Keys && OneTable(roots)
    requires Underway(db, roots, w) && Covered(w) && t in w.todo && Process(w, t) == None
    ensures Blocked(db, Closure(db, roots))
  {
    var hit := Pointing(w.db, t);
    if OnDelete(t.fk) == Cascade {
      var v :| v in hit && v.table == Votes;
      WornRef(db[v], w.db[v], w.gone, t.fk);
      assert false;
    } else {
      var k :| k in hit;
      WornRef(db[k], w.db[k], w.gone, t.fk);
      RestrictHoldersStay(db, roots, k, t.parent, t.fk);
    }
  }

  /** With nothing left to check, exactly the closure is gone. */
  lemma {:induction false} SettledMeansClosure(db: Db, roots: set<Key>, w: Work)
    requires Typed(db) && roots <= db.Keys && Underway(db, roots, w) && Covered(w) && w.todo == {}
    ensures w.gone == Closure(db, roots)
  {
    forall c, p | p in w.gone && GoesWith(db, c, p) ensures c in w.gone {
      var fk :| OnDelete(fk) == Cascade && PointsAt(fk, db[c], p);
      assert NoRef(w.db, fk, p);
      if c !in w.gone {
        WornRef(db[c], w.db[c], w.gone, fk);
        assert false;
      }
    }
    ClosureIsLeast(db, roots, w.gone);
  }

  lemma {:induction false} SettledMeansUnblocked(db: Db, roots: set<Key>, w: Work)
    requires roots <= db.Keys && Underway(db, roots, w) && Covered(w) && w.todo == {}
    ensures !Blocked(db, w.gone)
  {
    forall k, p, fk | k in db && k !in w.gone && p in w.gone && OnDelete(fk) == Restrict
      ensures !PointsAt(fk, db[k], p)
    {
      WornRef(db[k], w.db[k], w.gone, fk);
      assert PointsAt(fk, db[k], p) ==> NoRef(w.db, fk, p);
    }
  }

  lemma {:induction false} SettledRows(db: Db, roots: set<Key>, w: Work, k: Key)
    requires roots <= db.Keys && Underway(db, roots, w) && Covered(w) && w.todo == {} && k in w.db
    ensures w.db[k] == Nulled(db[k], w.gone)
  {
    if LosesRef(db[k], w.gone) {
      var f := NullableFk(TableOf(db[k])).value;
      assert NoRef(w.db, f, Key(Parent(f), Ref(f, db[k]).value));
    }
  }

  lemma {:induction false} SettledMeansDeleted(db: Db, keys: set<Key>, w: Work)
    requires Typed(db) && Underway(db, keys * db.Keys, w) && Covered(w) && w.todo == {}
    requires !AnyVote(keys * db.Keys)
    ensures DeleteResult(db, keys) == Some(w.db)
  {
    var roots := keys * db.Keys;
    SettledMeansClosure(db, roots, w);
    SettledMeansUnblocked(db, roots, w);
    forall k | k in w.db ensures w.db[k] == Nulled(db[k], w.gone) {
      SettledRows(db, roots, w, k);
    }
    assert w.db == Survivors(db, w.gone);
  }

  lemma {:induction false} BeginsUnderway(db: Db, keys: set<Key>)
    requires Typed(db) && BeginDelete(db, keys).Some?
    ensures Underway(db, keys * db.Keys, BeginDelete(db, keys).value) && Covered(BeginDelete(db, keys).value)
  {
  }

  lemma {:induction false} OrderDoesNotMatter(db: Db, keys: set<Key>, w: Work, ts: seq<Todo>, r: Option<Work>)
    requires Typed(db) && OneTable(keys * db.Keys) && !AnyVote(keys * db.Keys)
    requires Underway(db, keys * db.Keys, w) && Covered(w)
    requires Yields(w, ts, r) && Settled(r)
    ensures DeleteResult(db, keys) == match r case None => None case Some(w') => Some(w'.db)
    decreases |ts|
  {
    var roots := keys * db.Keys;
    if ts == [] {
      SettledMeansDeleted(db, keys, w);
    } else if Process(w, ts[0]) == None {
      ErrorMeansBlocked(db, roots, w, ts[0]);
    } else {
      StepKeeps(db, roots, w, ts[0]);
      OrderDoesNotMatter(db, keys, Process(w, ts[0]).value, ts[1..], r);
    }
  }

  /** Whatever order the pending checks are taken in, a DELETE is refused or
      gives the one result that does not mention any order. */
  lemma {:induction false} EveryOrderGivesTheResult(db: Db, keys: set<Key>, ts: seq<Todo>, r: Option<Work>)
    requires Typed(db) && OneTable(keys)
    requires match BeginDelete(db, keys)
             case None => r == None
             case Some(w) => Yields(w, ts, r) && Settled(r)
    ensures DeleteResult(db, keys) == match r case None => None case Some(w) => Some(w.db)
  {
    if BeginDelete(db, keys).Some? {
      BeginsUnderway(db, keys);
      OrderDoesNotMatter(db, keys, BeginDelete(db, keys).value, ts, r);
    }
  }

  // ----- termination -----

  /** Despite the cycle between organizations and users, every check either
      removes rows or is one check less. */
  lemma {:induction false} ChecksRunOut(w: Work, t: Todo)
    requires t in w.todo && Process(w, t).Some?
    ensures var w' := Process(w, t).value;
            |w'.db.Keys| < |w.db.Keys| || (|w'.db.Keys| == |w.db.Keys| && |w'.todo| < |w.todo|)
  {
    var w' := Process(w, t).value;
    var hit := Pointing(w.db, t);
    if OnDelete(t.fk) == Cascade && hit != {} {
      var k :| k in hit;
      assert w'.db.Keys < w.db.Keys;
      Smaller(w'.db.Keys, w.db.Keys);
    } else {
      assert w'.db.Keys == w.db.Keys;
      assert w'.todo == w.todo - {t};
    }
  }

  lemma {:induction false} Smaller<T>(a: set<T>, b: set<T>)
    requires a < b
    ensures |a| < |b|
  {
    assert b == a + (b - a);
    assert |b| == |a| + |b - a|;
  }

  lemma {:induction false} EveryDeleteEnds(w: Work) returns (ts: seq<Todo>, r: Option<Work>)
    ensures Yields(w, ts, r) && Settled(r)
    decreases |w.db.Keys|, |w.todo|
  {
    if w.todo == {} {
      return [], Some(w);
    }
    var t :| t in w.todo;
    if Process(w, t) == None {
      return [t], None;
    }
    ChecksRunOut(w, t);
    var rest, r' := EveryDeleteEnds(Process(w, t).value);
    ts, r := [t] + rest, r';
    assert ts[1..] == rest;
  }

  /** Any pending check may be the next one. */
  lemma {:induction false} EveryCheckMayComeNext(w: Work, t: Todo) returns (ts: seq<Todo>, r: Option<Work>)
    requires t in w.todo
    ensures ts != [] && ts[0] == t && Yields(w, ts, r) && Settled(r)
  {
    if Process(w, t) == None {
      return [t], None;
    }
    var rest, r' := EveryDeleteEnds(Process(w, t).value);
    ts, r := [t] + rest, r';
    assert ts[1..] == rest;
  }
}
