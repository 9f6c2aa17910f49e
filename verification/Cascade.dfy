/**
 Deleting rows through mixed CASCADE, SET NULL and RESTRICT keys.  The database
 works through a list of pending checks, one for each deleted row and each key
 that refers to its table, in an order nobody promises; what it ends with is
 defined here without any order.
 */
module Cascade {
  import opened Options
  import opened Schema

  // ----- what a deletion means -----

  /** `c` goes with `p`. */
  ghost predicate GoesWith(db: Db, c: Key, p: Key) {
    c in db && exists fk :: OnDelete(fk) == Cascade && PointsAt(fk, db[c], p)
  }

  ghost predicate Closed(db: Db, s: set<Key>) {
    forall c, p :: p in s && GoesWith(db, c, p) ==> c in s
  }

  /** The rows that go with `s`, directly. */
  ghost function Followers(db: Db, s: set<Key>): set<Key> {
    set c | c in db.Keys && exists p :: p in s && GoesWith(db, c, p)
  }

  /** The CASCADE closure. */
  ghost function Closure(db: Db, s: set<Key>): (c: set<Key>)
    requires s <= db.Keys
    ensures s <= c <= db.Keys
    ensures Closed(db, c)
    decreases db.Keys - s
  {
    var more := Followers(db, s);
    if more <= s then s else Closure(db, s + more)
  }

  lemma {:induction false} ClosureIsLeast(db: Db, s: set<Key>, t: set<Key>)
    requires s <= db.Keys && s <= t && Closed(db, t)
    ensures Closure(db, s) <= t
    decreases db.Keys - s
  {
    var more := Followers(db, s);
    if !(more <= s) {
      ClosureIsLeast(db, s + more, t);
    }
  }

  /** The one nullable key out of a table. */
  function NullableFk(t: Table): Option<Fk> {
    match t
    case Organizations => Some(OrganizationCreatedBy)
    case Users => Some(UserOrganization)
    case Candidates => Some(CandidateUser)
    case Settlements => Some(SettlementUser)
    case _ => None
  }

  /** The row loses its nullable reference to a deleted row. */
  predicate LosesRef(r: Row, gone: set<Key>) {
    var f := NullableFk(TableOf(r));
    f.Some? && Ref(f.value, r).Some? && Key(Parent(f.value), Ref(f.value, r).value) in gone
  }

  function WithoutRef(r: Row): Row
    requires NullableFk(TableOf(r)).Some?
  {
    Cleared(NullableFk(TableOf(r)).value, r)
  }

  function Nulled(r: Row, gone: set<Key>): Row {
    if LosesRef(r, gone) then WithoutRef(r) else r
  }

  /** Some row outside refers to a row of `gone` through a RESTRICT key. */
  ghost predicate Blocked(db: Db, gone: set<Key>) {
    exists k, p, fk :: k in db && k !in gone && p in gone && OnDelete(fk) == Restrict && PointsAt(fk, db[k], p)
  }

  ghost function Survivors(db: Db, gone: set<Key>): Db {
    map k | k in db.Keys - gone :: Nulled(db[k], gone)
  }

  ghost predicate AnyVote(s: set<Key>) {
    exists k :: k in s && k.table == Votes
  }

  /** DELETE of the rows of `keys` that exist: `None` when it is refused. */
  ghost function DeleteResult(db: Db, keys: set<Key>): Option<Db> {
    var roots := keys * db.Keys;
    if AnyVote(roots) || Blocked(db, Closure(db, roots)) then None
    else Some(Survivors(db, Closure(db, roots)))
  }

  // ----- how the database does it -----

  /** A pending check of one key for one deleted row. */
  datatype Todo = Todo(parent: Key, fk: Fk)

  datatype Work = Work(db: Db, gone: set<Key>, todo: set<Todo>)

  ghost function TodosFor(s: set<Key>): set<Todo> {
    set k, fk | k in s && Parent(fk) == k.table :: Todo(k, fk)
  }

  ghost function Pointing(db: Db, t: Todo): set<Key> {
    set k | k in db.Keys && PointsAt(t.fk, db[k], t.parent)
  }

  ghost function ClearRefs(db: Db, t: Todo): Db
    requires OnDelete(t.fk) == SetNull
  {
    map k | k in db :: if PointsAt(t.fk, db[k], t.parent) then Cleared(t.fk, db[k]) else db[k]
  }

  /** The rows are removed at once, unless the trigger on votes objects. */
  ghost function BeginDelete(db: Db, keys: set<Key>): Option<Work> {
    var roots := keys * db.Keys;
    if AnyVote(roots) then None else Some(Work(db - roots, roots, TodosFor(roots)))
  }

  /** One pending check: `None` is an error, and the statement is rolled back. */
  ghost function Process(w: Work, t: Todo): Option<Work> {
    var hit := Pointing(w.db, t);
    match OnDelete(t.fk)
    case Restrict => if hit == {} then Some(w.(todo := w.todo - {t})) else None
    case SetNull => Some(w.(db := ClearRefs(w.db, t), todo := w.todo - {t}))
    case Cascade =>
      if AnyVote(hit) then None
      else Some(Work(w.db - hit, w.gone + hit, w.todo - {t} + TodosFor(hit)))
  }

  /** `r` is what comes of taking the pending checks in the order `ts`. */
  ghost predicate Yields(w: Work, ts: seq<Todo>, r: Option<Work>)
    decreases |ts|
  {
    if ts == [] then r == Some(w)
    else
      && ts[0] in w.todo
      && match Process(w, ts[0])
         case None => r == None && |ts| == 1
         case Some(w') => Yields(w', ts[1..], r)
  }

  ghost predicate Settled(r: Option<Work>) {
    r.Some? ==> r.value.todo == {}
  }
}
