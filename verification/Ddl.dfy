/**
 The rendered migrations as a list of DDL statements: what they leave behind when
 they are replayed in order, and what the schema checks read off the list in two
 passes that ignore the order.
 */
module Ddl {
  import opened Options

  /** Where a definition has the word DEFAULT, in upper or lower case: nowhere; in
      passing, as in a CHECK or in ON DELETE SET DEFAULT; or as its default. */
  datatype Mention = Nowhere | InPassing | AsDefault

  /** A line of a CREATE TABLE body, by its first word. */
  datatype Line = ColumnLine(name: string, mention: Mention) | ConstraintLine(name: string, mention: Mention)

  datatype Statement =
    | CreateTable(table: string, lines: seq<Line>)
    | DropTable(table: string)
    | AddColumn(table: string, column: string, ifNotExists: bool, mention: Mention)
    | DropColumn(table: string, column: string, ifExists: bool)
    | SetDefault(table: string, column: string)
    | DropDefault(table: string, column: string)
    | Other

  type Column = (string, string)

  datatype Schema = Schema(tables: set<string>, columns: set<Column>, defaults: set<Column>)

  // ----- replay in order -----

  function ColumnsOf(table: string, lines: seq<Line>): set<Column> {
    set l | l in lines && l.ColumnLine? :: (table, l.name)
  }

  function DefaultsOf(table: string, lines: seq<Line>): set<Column> {
    set l | l in lines && l.ColumnLine? && l.mention.AsDefault? :: (table, l.name)
  }

  predicate NamedOnce(lines: seq<Line>) {
    forall i, j :: 0 <= i < j < |lines| && lines[i].ColumnLine? && lines[j].ColumnLine? ==>
      lines[i].name != lines[j].name
  }

  function OutsideTable(cs: set<Column>, table: string): set<Column> {
    set c | c in cs && c.0 != table
  }

  /** `None` when the database refuses the statement. */
  function Step(db: Schema, s: Statement): Option<Schema> {
    match s
    case CreateTable(t, lines) =>
      if t in db.tables || !NamedOnce(lines) then None
      else Some(Schema(db.tables + {t}, db.columns + ColumnsOf(t, lines), db.defaults + DefaultsOf(t, lines)))
    case DropTable(t) =>
      if t !in db.tables then None
      else Some(Schema(db.tables - {t}, OutsideTable(db.columns, t), OutsideTable(db.defaults, t)))
    case AddColumn(t, n, ifNotExists, mention) =>
      if t !in db.tables then None
      else if (t, n) in db.columns then (if ifNotExists then Some(db) else None)
      else Some(db.(columns := db.columns + {(t, n)},
                    defaults := db.defaults + if mention.AsDefault? then {(t, n)} else {}))
    case DropColumn(t, n, ifExists) =>
      if t !in db.tables || ((t, n) !in db.columns && !ifExists) then None
      else Some(db.(columns := db.columns - {(t, n)}, defaults := db.defaults - {(t, n)}))
    case SetDefault(t, n) =>
      if (t, n) !in db.columns then None else Some(db.(defaults := db.defaults + {(t, n)}))
    case DropDefault(t, n) =>
      if (t, n) !in db.columns then None else Some(db.(defaults := db.defaults - {(t, n)}))
    case Other => Some(db)
  }

  function Replay(script: seq<Statement>): Option<Schema> {
    if script == [] then Some(Schema({}, {}, {}))
    else match Replay(script[..|script| - 1])
         case None => None
         case Some(db) => Step(db, script[|script| - 1])
  }

  // ----- the passes -----

  predicate Creates(s: Statement, c: Column) {
    s.CreateTable? && s.table == c.0 && exists l :: l in s.lines && l.ColumnLine? && l.name == c.1
  }

  predicate CreatesWithDefault(s: Statement, c: Column) {
    && s.CreateTable? && s.table == c.0
    && exists l :: l in s.lines && l.ColumnLine? && l.name == c.1 && l.mention.AsDefault?
  }

  /** The pattern for a default at creation looks for the word, wherever it stands,
      and does not skip constraints. */
  predicate MentionsDefault(s: Statement, c: Column) {
    s.CreateTable? && s.table == c.0 && exists l :: l in s.lines && l.name == c.1 && !l.mention.Nowhere?
  }

  function MentionsOf(table: string, lines: seq<Line>): set<Column> {
    set l | l in lines && !l.mention.Nowhere? :: (table, l.name)
  }

  predicate Adds(s: Statement, c: Column) {
    s.AddColumn? && c == (s.table, s.column)
  }

  predicate Drops(s: Statement, c: Column) {
    s.DropColumn? && c == (s.table, s.column)
  }

  predicate Strips(s: Statement, c: Column) {
    s.DropDefault? && c == (s.table, s.column)
  }

  /** The pattern for an added default takes the word after ADD COLUMN for the
      name, and in ADD COLUMN IF NOT EXISTS that word is IF. */
  function MatchedName(s: Statement): string
    requires s.AddColumn?
  {
    if s.ifNotExists then "IF" else s.column
  }

  function ColumnsGivenADefaultLater(script: seq<Statement>): (later: set<Column>)
    ensures forall c :: c in later <==> exists s :: s in script && GivesLater(s, c)
  {
    var added := set s | s in script && s.AddColumn? && !s.mention.Nowhere? :: (s.table, MatchedName(s));
    var altered := set s | s in script && s.SetDefault? :: (s.table, s.column);
    added + altered
  }

  predicate GivesLater(s: Statement, c: Column) {
    || (s.AddColumn? && !s.mention.Nowhere? && c == (s.table, MatchedName(s)))
    || (s.SetDefault? && c == (s.table, s.column))
  }

  function ColumnsStrippedOfTheirDefault(script: seq<Statement>): (stripped: set<Column>)
    ensures forall c :: c in stripped <==> exists s :: s in script && Strips(s, c)
  {
    set s | s in script && s.DropDefault? :: (s.table, s.column)
  }

  method ColumnsCreatedWithADefault(script: seq<Statement>) returns (found: set<Column>)
    ensures forall c :: c in found <==> exists s :: s in script && MentionsDefault(s, c)
  {
    found := {};
    for i := 0 to |script|
      invariant forall c :: c in found <==> exists s :: s in script[..i] && MentionsDefault(s, c)
    {
      var s := script[i];
      assert forall t :: t in script[..i + 1] <==> t in script[..i] || t == s;
      if s.CreateTable? {
        ghost var before := found;
        for j := 0 to |s.lines|
          invariant found == before + MentionsOf(s.table, s.lines[..j])
        {
          var line := s.lines[j];
          assert forall l :: l in s.lines[..j + 1] <==> l in s.lines[..j] || l == line;
          if !line.mention.Nowhere? {
            found := found + {(s.table, line.name)};
          }
        }
        assert s.lines[..|s.lines|] == s.lines;
        assert forall c :: c in MentionsOf(s.table, s.lines) <==> MentionsDefault(s, c);
      }
    }
    assert script[..|script|] == script;
  }

  /** What the check calls the columns of the schema. */
  predicate ReportsColumn(script: seq<Statement>, c: Column) {
    && (exists s :: s in script && (Creates(s, c) || Adds(s, c)))
    && forall s :: s in script ==> !Drops(s, c)
  }

  method ColumnsInTheRenderedSchema(script: seq<Statement>) returns (found: set<Column>)
    ensures forall c :: c in found <==> ReportsColumn(script, c)
  {
    found := {};
    for i := 0 to |script|
      invariant forall c :: c in found <==> exists s :: s in script[..i] && Creates(s, c)
    {
      var s := script[i];
      assert forall t :: t in script[..i + 1] <==> t in script[..i] || t == s;
      if s.CreateTable? {
        ghost var before := found;
        for j := 0 to |s.lines|
          invariant found == before + ColumnsOf(s.table, s.lines[..j])
        {
          var line := s.lines[j];
          assert forall l :: l in s.lines[..j + 1] <==> l in s.lines[..j] || l == line;
          if line.ColumnLine? {
            found := found + {(s.table, line.name)};
          }
        }
        assert s.lines[..|s.lines|] == s.lines;
        assert forall c :: c in ColumnsOf(s.table, s.lines) <==> Creates(s, c);
      }
    }
    assert script[..|script|] == script;
    ghost var created := found;
    for i := 0 to |script|
      invariant forall c :: c in found <==> c in created || exists s :: s in script[..i] && Adds(s, c)
    {
      assert script[i] in script[..i + 1];
      assert forall t :: t in script[..i + 1] <==> t in script[..i] || t == script[i];
      assert forall c :: Adds(script[i], c) <==> script[i].AddColumn? && c == (script[i].table, script[i].column);
      if script[i].AddColumn? {
        found := found + {(script[i].table, script[i].column)};
      }
    }
    assert script[..|script|] == script;
    ghost var all := found;
    for i := 0 to |script|
      invariant forall c :: c in found <==> c in all && forall s :: s in script[..i] ==> !Drops(s, c)
    {
      assert script[i] in script[..i + 1];
      assert forall t :: t in script[..i + 1] <==> t in script[..i] || t == script[i];
      assert forall c :: Drops(script[i], c) <==> script[i].DropColumn? && c == (script[i].table, script[i].column);
      if script[i].DropColumn? {
        found := found - {(script[i].table, script[i].column)};
      }
    }
    assert script[..|script|] == script;
  }

  /** What the check calls the columns with a default. */
  predicate ReportsDefault(script: seq<Statement>, c: Column) {
    && (exists s :: s in script && (MentionsDefault(s, c) || GivesLater(s, c)))
    && forall s :: s in script ==> !Strips(s, c)
  }

  method ColumnsWithADefault(script: seq<Statement>) returns (present: set<Column>)
    ensures forall c :: c in present <==> ReportsDefault(script, c)
  {
    var created := ColumnsCreatedWithADefault(script);
    present := (created + ColumnsGivenADefaultLater(script)) - ColumnsStrippedOfTheirDefault(script);
  }

  // ----- the last event decides -----

  /** After the first `n` events the last change was upwards. */
  predicate Lasts(n: nat, up: nat -> bool, down: nat -> bool) {
    n > 0 && (up(n - 1) || (Lasts(n - 1, up, down) && !down(n - 1)))
  }

  /** Something went up, and nothing down after it. */
  lemma {:induction false} LastsMeans(n: nat, up: nat -> bool, down: nat -> bool)
    ensures Lasts(n, up, down) <==>
            exists i: nat {:trigger up(i)} :: i < n && up(i) && forall j: nat :: i < j < n ==> !down(j)
  {
    if n > 0 {
      LastsMeans(n - 1, up, down);
    }
  }

  /** Something went down, and nothing up after it. */
  predicate Falls(n: nat, up: nat -> bool, down: nat -> bool) {
    Lasts(n, down, up)
  }

  lemma {:induction false} NeverFalls(n: nat, up: nat -> bool, down: nat -> bool)
    requires forall i: nat :: i < n ==> !down(i)
    ensures !Falls(n, up, down)
  {
    if n > 0 {
      NeverFalls(n - 1, up, down);
    }
  }

  ghost predicate Ever(n: nat, up: nat -> bool) {
    exists i: nat :: i < n && up(i)
  }

  lemma {:induction false} OneMoreEvent(n: nat, up: nat -> bool)
    requires n > 0
    ensures Ever(n, up) <==> up(n - 1) || Ever(n - 1, up)
  {
  }

  lemma {:induction false} LastsOrFalls(n: nat, up: nat -> bool, down: nat -> bool)
    requires forall i: nat :: i < n ==> !up(i) || !down(i)
    ensures Lasts(n, up, down) <==> Ever(n, up) && !Falls(n, up, down)
  {
    if n > 0 {
      LastsOrFalls(n - 1, up, down);
      OneMoreEvent(n, up);
    }
  }

  lemma {:induction false} SameFalls(n: nat, up: nat -> bool, down: nat -> bool, down': nat -> bool)
    requires forall i: nat :: i < n ==> down(i) == down'(i)
    ensures Lasts(n, up, down) == Lasts(n, up, down')
  {
    if n > 0 {
      SameFalls(n - 1, up, down, down');
    }
  }

  // ----- columns -----

  predicate Brings(s: Statement, c: Column) {
    Creates(s, c) || Adds(s, c)
  }

  predicate DropsTableOf(s: Statement, c: Column) {
    s.DropTable? && s.table == c.0
  }

  predicate Removes(s: Statement, c: Column) {
    Drops(s, c) || DropsTableOf(s, c)
  }

  function BringsAt(script: seq<Statement>, c: Column): nat -> bool {
    (i: nat) => i < |script| && Brings(script[i], c)
  }

  function RemovesAt(script: seq<Statement>, c: Column): nat -> bool {
    (i: nat) => i < |script| && Removes(script[i], c)
  }

  function DropsTableAt(script: seq<Statement>, c: Column): nat -> bool {
    (i: nat) => i < |script| && DropsTableOf(script[i], c)
  }

  /** The column is there after the first `n` statements. */
  ghost predicate Standing(script: seq<Statement>, n: nat, c: Column) {
    Lasts(n, BringsAt(script, c), RemovesAt(script, c))
  }

  lemma {:induction false} StepColumn(db: Schema, s: Statement, c: Column)
    requires Step(db, s).Some?
    ensures c in Step(db, s).value.columns <==> Brings(s, c) || (c in db.columns && !Removes(s, c))
  {
    if s.CreateTable? {
      assert c in ColumnsOf(s.table, s.lines) <==> Creates(s, c);
    }
  }

  lemma {:induction false} ReplayUnfolds(script: seq<Statement>, n: nat)
    requires 0 < n <= |script| && Replay(script[..n]).Some?
    ensures Replay(script[..n - 1]).Some?
    ensures Replay(script[..n]) == Step(Replay(script[..n - 1]).value, script[n - 1])
  {
    assert script[..n][..n - 1] == script[..n - 1];
  }

  lemma {:induction false} ReplayedColumn(script: seq<Statement>, n: nat, c: Column)
    requires n <= |script| && Replay(script[..n]).Some?
    ensures c in Replay(script[..n]).value.columns <==> Standing(script, n, c)
  {
    if n > 0 {
      ReplayUnfolds(script, n);
      ReplayedColumn(script, n - 1, c);
      StepColumn(Replay(script[..n - 1]).value, script[n - 1], c);
    }
  }

  // ----- defaults -----

  /** A statement from which the database learns a default whatever the state. */
  predicate GivesDefault(s: Statement, c: Column) {
    || CreatesWithDefault(s, c)
    || (Adds(s, c) && s.mention.AsDefault? && !s.ifNotExists)
    || (s.SetDefault? && c == (s.table, s.column))
  }

  /** ADD COLUMN IF NOT EXISTS with a default. */
  predicate MayGiveDefault(s: Statement, c: Column) {
    Adds(s, c) && s.mention.AsDefault? && s.ifNotExists
  }

  predicate TakesDefault(s: Statement, c: Column) {
    Removes(s, c) || Strips(s, c)
  }

  /** Statement `i` gives the default; one with IF NOT EXISTS does so only if the
      column is not there. */
  ghost predicate Gives(script: seq<Statement>, i: nat, c: Column)
    requires i < |script|
  {
    GivesDefault(script[i], c) || (MayGiveDefault(script[i], c) && !Standing(script, i, c))
  }

  ghost function GivesAt(script: seq<Statement>, c: Column): nat -> bool {
    (i: nat) => i < |script| && Gives(script, i, c)
  }

  function TakesAt(script: seq<Statement>, c: Column): nat -> bool {
    (i: nat) => i < |script| && TakesDefault(script[i], c)
  }

  lemma {:induction false} StepDefault(db: Schema, s: Statement, c: Column)
    requires Step(db, s).Some?
    ensures c in Step(db, s).value.defaults <==>
            || GivesDefault(s, c)
            || (MayGiveDefault(s, c) && c !in db.columns)
            || (c in db.defaults && !TakesDefault(s, c))
  {
    if s.CreateTable? {
      assert c in DefaultsOf(s.table, s.lines) <==> CreatesWithDefault(s, c);
    }
  }

  lemma {:induction false} ReplayedDefault(script: seq<Statement>, n: nat, c: Column)
    requires n <= |script| && Replay(script[..n]).Some?
    ensures c in Replay(script[..n]).value.defaults <==> Lasts(n, GivesAt(script, c), TakesAt(script, c))
  {
    if n > 0 {
      ReplayUnfolds(script, n);
      ReplayedDefault(script, n - 1, c);
      ReplayedColumn(script, n - 1, c);
      StepDefault(Replay(script[..n - 1]).value, script[n - 1], c);
    }
  }

  // ----- which scripts replay -----

  function CreatesTableAt(script: seq<Statement>, t: string): nat -> bool {
    (i: nat) => i < |script| && script[i].CreateTable? && script[i].table == t
  }

  function LosesTableAt(script: seq<Statement>, t: string): nat -> bool {
    (i: nat) => i < |script| && script[i].DropTable? && script[i].table == t
  }

  /** The table is there after the first `n` statements. */
  ghost predicate TableStanding(script: seq<Statement>, n: nat, t: string) {
    Lasts(n, CreatesTableAt(script, t), LosesTableAt(script, t))
  }

  lemma {:induction false} ReplayedTable(script: seq<Statement>, n: nat, t: string)
    requires n <= |script| && Replay(script[..n]).Some?
    ensures t in Replay(script[..n]).value.tables <==> TableStanding(script, n, t)
  {
    if n > 0 {
      ReplayUnfolds(script, n);
      ReplayedTable(script, n - 1, t);
    }
  }

  /** Statement `i` finds what it needs: a new table no table of its name and no
      column defined twice, every other statement its table; an addition no such
      column, unless it says IF NOT EXISTS; a removal its column, unless it says IF
      EXISTS; and a default that is set or dropped its column. */
  ghost predicate FindsWhatItNeeds(script: seq<Statement>, i: nat)
    requires i < |script|
  {
    match script[i]
    case CreateTable(t, lines) =>
      && !TableStanding(script, i, t)
      && (forall j, k :: 0 <= j < k < |lines| && lines[j].ColumnLine? && lines[k].ColumnLine? ==>
            lines[j].name != lines[k].name)
    case DropTable(t) => TableStanding(script, i, t)
    case AddColumn(t, n, ifNotExists, _) =>
      TableStanding(script, i, t) && (ifNotExists || !Standing(script, i, (t, n)))
    case DropColumn(t, n, ifExists) =>
      TableStanding(script, i, t) && (ifExists || Standing(script, i, (t, n)))
    case SetDefault(t, n) => Standing(script, i, (t, n))
    case DropDefault(t, n) => Standing(script, i, (t, n))
    case Other => true
  }

  lemma {:induction false} OneMoreReplays(script: seq<Statement>, i: nat)
    requires i < |script| && Replay(script[..i]).Some?
    ensures Replay(script[..i + 1]).Some? <==> FindsWhatItNeeds(script, i)
  {
    assert script[..i + 1][..i] == script[..i];
    assert Replay(script[..i + 1]) == Step(Replay(script[..i]).value, script[i]);
    if !script[i].Other? {
      ReplayedTable(script, i, script[i].table);
    }
    if script[i].AddColumn? || script[i].DropColumn? || script[i].SetDefault? || script[i].DropDefault? {
      ReplayedColumn(script, i, (script[i].table, script[i].column));
    }
  }

  lemma {:induction false} PrefixReplaysExactlyWhen(script: seq<Statement>, n: nat)
    requires n <= |script|
    ensures Replay(script[..n]).Some? <==> forall i: nat :: i < n ==> FindsWhatItNeeds(script, i)
  {
    if n > 0 {
      PrefixReplaysExactlyWhen(script, n - 1);
      assert script[..n][..n - 1] == script[..n - 1];
      if Replay(script[..n - 1]).Some? {
        OneMoreReplays(script, n - 1);
      }
    }
  }

  /** A script replays exactly when each statement finds what it needs in what the
      statements before it have left. */
  lemma {:induction false} ReplaysExactlyWhen(script: seq<Statement>)
    ensures Replay(script).Some? <==> forall i: nat :: i < |script| ==> FindsWhatItNeeds(script, i)
  {
    PrefixReplaysExactlyWhen(script, |script|);
    assert script[..|script|] == script;
  }

  // ----- the column pass against the replay -----

  predicate EverDropped(script: seq<Statement>, c: Column) {
    exists s :: s in script && Drops(s, c)
  }

  /** The column's table was dropped after the column last came. */
  ghost predicate LostWithItsTable(script: seq<Statement>, c: Column) {
    Falls(|script|, BringsAt(script, c), DropsTableAt(script, c))
  }

  lemma {:induction false} UndroppedColumn(script: seq<Statement>, c: Column)
    requires !EverDropped(script, c)
    ensures Standing(script, |script|, c) <==>
            Ever(|script|, BringsAt(script, c)) && !LostWithItsTable(script, c)
  {
    forall i: nat | i < |script| ensures RemovesAt(script, c)(i) == DropsTableAt(script, c)(i) {
      assert script[i] in script;
    }
    SameFalls(|script|, BringsAt(script, c), RemovesAt(script, c), DropsTableAt(script, c));
    LastsOrFalls(|script|, BringsAt(script, c), DropsTableAt(script, c));
  }

  lemma {:induction false} BroughtSomewhere(script: seq<Statement>, c: Column)
    ensures Ever(|script|, BringsAt(script, c)) <==> exists s :: s in script && Brings(s, c)
  {
    forall s | s in script && Brings(s, c) ensures Ever(|script|, BringsAt(script, c)) {
      var i :| 0 <= i < |script| && script[i] == s;
      assert BringsAt(script, c)(i);
    }
  }

  lemma {:induction false} ReportsTheBrought(script: seq<Statement>, c: Column)
    ensures ReportsColumn(script, c) <==> (exists s :: s in script && Brings(s, c)) && !EverDropped(script, c)
  {
  }

  /** A column of the replayed schema is missed exactly when some statement once
      dropped it, so a column added again stays missing; a column is reported
      wrongly exactly when it went with its table. */
  lemma {:induction false} ColumnPassAgainstReplay(script: seq<Statement>, c: Column)
    requires Replay(script).Some?
    ensures c in Replay(script).value.columns ==> (ReportsColumn(script, c) <==> !EverDropped(script, c))
    ensures ReportsColumn(script, c) ==> (c in Replay(script).value.columns <==> !LostWithItsTable(script, c))
  {
    assert script[..|script|] == script;
    ReplayedColumn(script, |script|, c);
    ReportsTheBrought(script, c);
    BroughtSomewhere(script, c);
    if !EverDropped(script, c) {
      UndroppedColumn(script, c);
    }
  }

  lemma {:induction false} NoTableLost(script: seq<Statement>, c: Column)
    requires forall s :: s in script ==> !s.DropTable?
    ensures !LostWithItsTable(script, c)
  {
    forall i: nat | i < |script| ensures !DropsTableAt(script, c)(i) {
      assert script[i] in script;
    }
    NeverFalls(|script|, BringsAt(script, c), DropsTableAt(script, c));
  }

  /** Without dropped tables every reported column is there, and the report is the
      schema exactly when no column of the schema was ever dropped. */
  lemma {:induction false} ColumnReportIsSafe(script: seq<Statement>)
    requires Replay(script).Some? && forall s :: s in script ==> !s.DropTable?
    ensures forall c :: ReportsColumn(script, c) ==> c in Replay(script).value.columns
    ensures (forall c :: ReportsColumn(script, c) <==> c in Replay(script).value.columns) <==>
            forall c :: c in Replay(script).value.columns ==> !EverDropped(script, c)
  {
    forall c
      ensures ReportsColumn(script, c) ==> c in Replay(script).value.columns
      ensures c in Replay(script).value.columns ==> (ReportsColumn(script, c) <==> !EverDropped(script, c))
    {
      NoTableLost(script, c);
      ColumnPassAgainstReplay(script, c);
    }
  }

  // ----- the default pass against the replay -----

  predicate EverStripped(script: seq<Statement>, c: Column) {
    exists s :: s in script && Strips(s, c)
  }

  /** A line that mentions DEFAULT without giving one: any constraint, and a
      column that does so in passing. */
  predicate MentionsOnly(l: Line) {
    match l
    case ColumnLine(_, mention) => mention.InPassing?
    case ConstraintLine(_, mention) => !mention.Nowhere?
  }

  /** A name that the patterns take for a column with a default: the first word of
      a line that only mentions DEFAULT, an added column whose definition only
      mentions it, and the word IF of IF NOT EXISTS. */
  predicate Misreads(s: Statement, c: Column) {
    || (s.CreateTable? && s.table == c.0 && exists l :: l in s.lines && l.name == c.1 && MentionsOnly(l))
    || (s.AddColumn? && !s.ifNotExists && s.mention.InPassing? && c == (s.table, s.column))
    || (s.AddColumn? && s.ifNotExists && !s.mention.Nowhere? && c == (s.table, "IF"))
  }

  /** Every statement that could give the default has IF NOT EXISTS, and none is
      misread as if it gave it. */
  predicate OnlyMayBeGiven(script: seq<Statement>, c: Column) {
    forall s :: s in script ==> !GivesDefault(s, c) && !Misreads(s, c)
  }

  /** No statement gives the default in the state in which it runs. */
  ghost predicate NeverGiven(script: seq<Statement>, c: Column) {
    !Ever(|script|, GivesAt(script, c))
  }

  /** The column or its table was dropped after it was last given a default. */
  ghost predicate DefaultLostToADrop(script: seq<Statement>, c: Column) {
    Falls(|script|, GivesAt(script, c), RemovesAt(script, c))
  }

  lemma {:induction false} ReadAsGiven(s: Statement, c: Column)
    ensures MentionsDefault(s, c) || GivesLater(s, c) <==> GivesDefault(s, c) || Misreads(s, c)
  {
  }

  lemma {:induction false} ReportsTheRead(script: seq<Statement>, c: Column)
    ensures ReportsDefault(script, c) <==> !OnlyMayBeGiven(script, c) && !EverStripped(script, c)
  {
    forall s | s in script
      ensures MentionsDefault(s, c) || GivesLater(s, c) <==> GivesDefault(s, c) || Misreads(s, c)
    {
      ReadAsGiven(s, c);
    }
  }

  lemma {:induction false} UnstrippedDefault(script: seq<Statement>, c: Column)
    requires !EverStripped(script, c)
    ensures Lasts(|script|, GivesAt(script, c), TakesAt(script, c)) <==>
            !NeverGiven(script, c) && !DefaultLostToADrop(script, c)
  {
    forall i: nat | i < |script|
      ensures TakesAt(script, c)(i) == RemovesAt(script, c)(i)
      ensures !GivesAt(script, c)(i) || !RemovesAt(script, c)(i)
    {
      assert script[i] in script;
    }
    SameFalls(|script|, GivesAt(script, c), TakesAt(script, c), RemovesAt(script, c));
    LastsOrFalls(|script|, GivesAt(script, c), RemovesAt(script, c));
  }

  /** A default of the replayed schema is missed exactly when it was once stripped,
      or when only additions with IF NOT EXISTS give it; a reported one is not there
      exactly when no statement really gave it, or the column was dropped after it
      was last given one. */
  lemma {:induction false} DefaultPassAgainstReplay(script: seq<Statement>, c: Column)
    requires Replay(script).Some?
    ensures c in Replay(script).value.defaults ==>
              (!ReportsDefault(script, c) <==> EverStripped(script, c) || OnlyMayBeGiven(script, c))
    ensures ReportsDefault(script, c) ==>
              (c !in Replay(script).value.defaults <==> NeverGiven(script, c) || DefaultLostToADrop(script, c))
  {
    assert script[..|script|] == script;
    ReplayedDefault(script, |script|, c);
    ReportsTheRead(script, c);
    if !EverStripped(script, c) {
      UnstrippedDefault(script, c);
    }
  }

  /** Every misread name was stripped of its default, or really given one. */
  ghost predicate MisreadingsAreHarmless(script: seq<Statement>) {
    forall s, c :: s in script && Misreads(s, c) ==> EverStripped(script, c) || !NeverGiven(script, c)
  }

  lemma {:induction false} GivenIsNotNever(script: seq<Statement>, s: Statement, c: Column)
    requires s in script && GivesDefault(s, c)
    ensures !NeverGiven(script, c)
  {
    var i :| 0 <= i < |script| && script[i] == s;
    assert GivesAt(script, c)(i);
  }

  lemma {:induction false} NothingLost(script: seq<Statement>, c: Column)
    requires forall s :: s in script ==> !s.DropTable? && !s.DropColumn?
    ensures !DefaultLostToADrop(script, c)
  {
    forall i: nat | i < |script| ensures !RemovesAt(script, c)(i) {
      assert script[i] in script;
    }
    NeverFalls(|script|, GivesAt(script, c), RemovesAt(script, c));
  }

  /** Without drops a column is reported rightly, unless it is a misread name. */
  lemma {:induction false} ReportedWithoutDrops(script: seq<Statement>, c: Column)
    requires Replay(script).Some? && forall s :: s in script ==> !s.DropTable? && !s.DropColumn?
    requires ReportsDefault(script, c)
    ensures c in Replay(script).value.defaults <==> !NeverGiven(script, c)
    ensures NeverGiven(script, c) ==> exists s :: s in script && Misreads(s, c)
  {
    DefaultPassAgainstReplay(script, c);
    NothingLost(script, c);
    ReportsTheRead(script, c);
    forall s | s in script && GivesDefault(s, c) ensures !NeverGiven(script, c) {
      GivenIsNotNever(script, s, c);
    }
  }

  lemma {:induction false} SafeIffHarmless(script: seq<Statement>)
    requires Replay(script).Some? && forall s :: s in script ==> !s.DropTable? && !s.DropColumn?
    ensures (forall c :: ReportsDefault(script, c) ==> c in Replay(script).value.defaults) <==>
            MisreadingsAreHarmless(script)
  {
    if MisreadingsAreHarmless(script) {
      forall c | ReportsDefault(script, c) ensures c in Replay(script).value.defaults {
        ReportedWithoutDrops(script, c);
      }
    }
    if forall c :: ReportsDefault(script, c) ==> c in Replay(script).value.defaults {
      forall s, c | s in script && Misreads(s, c) ensures EverStripped(script, c) || !NeverGiven(script, c) {
        ReportsTheRead(script, c);
        if ReportsDefault(script, c) {
          ReportedWithoutDrops(script, c);
        }
      }
    }
  }

  /** Without drops every reported default is there exactly when the misread names
      do no harm, and the report is the schema's exactly when, besides, no default
      of the schema was ever stripped or given by IF NOT EXISTS alone. */
  lemma {:induction false} DefaultReportIsSafe(script: seq<Statement>)
    requires Replay(script).Some? && forall s :: s in script ==> !s.DropTable? && !s.DropColumn?
    ensures (forall c :: ReportsDefault(script, c) ==> c in Replay(script).value.defaults) <==>
            MisreadingsAreHarmless(script)
    ensures (forall c :: ReportsDefault(script, c) <==> c in Replay(script).value.defaults) <==>
            && MisreadingsAreHarmless(script)
            && forall c :: c in Replay(script).value.defaults ==>
                 !EverStripped(script, c) && !OnlyMayBeGiven(script, c)
  {
    SafeIffHarmless(script);
    forall c | c in Replay(script).value.defaults
      ensures ReportsDefault(script, c) <==> !EverStripped(script, c) && !OnlyMayBeGiven(script, c)
    {
      DefaultPassAgainstReplay(script, c);
    }
  }

  // ----- four misreadings -----

  /** A column added again without its default is still reported to have one. */
  lemma {:induction false} StaleDefaultIsReported(t: string, n: string)
    ensures var script :=
              [CreateTable(t, [ColumnLine(n, AsDefault)]), DropColumn(t, n, false), AddColumn(t, n, false, Nowhere)];
            && Replay(script).Some? && (t, n) in Replay(script).value.columns
            && (t, n) !in Replay(script).value.defaults && ReportsDefault(script, (t, n))
  {
    var lines := [ColumnLine(n, AsDefault)];
    var script := [CreateTable(t, lines), DropColumn(t, n, false), AddColumn(t, n, false, Nowhere)];
    assert lines[0] in lines && script[0] in script;
    assert MentionsDefault(script[0], (t, n)) && (t, n) in ColumnsOf(t, lines);
    assert script[..2] == [CreateTable(t, lines), DropColumn(t, n, false)];
    assert script[..2][..1] == [CreateTable(t, lines)];
    assert Replay([CreateTable(t, lines)]) == Step(Schema({}, {}, {}), script[0]);
  }

  /** ADD COLUMN IF NOT EXISTS with a default: the default is not reported, and one
      for a column of the name IF is. */
  lemma {:induction false} ConditionalDefaultIsMisread(t: string, n: string)
    requires n != "IF"
    ensures var script := [CreateTable(t, []), AddColumn(t, n, true, AsDefault)];
            && Replay(script).Some? && Replay(script).value.defaults == {(t, n)}
            && !ReportsDefault(script, (t, n)) && ReportsDefault(script, (t, "IF"))
  {
    var script := [CreateTable(t, []), AddColumn(t, n, true, AsDefault)];
    assert script[..1] == [CreateTable(t, [])];
    assert Replay([CreateTable(t, [])]) == Step(Schema({}, {}, {}), script[0]);
    assert GivesLater(script[1], (t, "IF")) && script[1] in script;
  }

  /** A line that only mentions DEFAULT is reported as a column with one, by its
      first word; be it a constraint, or a column without a default. */
  lemma {:induction false} MentionIsMisread(t: string, line: Line)
    requires MentionsOnly(line)
    ensures var script := [CreateTable(t, [line])];
            && Replay(script).Some? && Replay(script).value.defaults == {}
            && ((t, line.name) in Replay(script).value.columns <==> line.ColumnLine?)
            && ReportsDefault(script, (t, line.name))
  {
    var lines := [line];
    var script := [CreateTable(t, lines)];
    assert lines[0] in lines && script[0] in script;
    assert MentionsDefault(script[0], (t, line.name));
    assert script[..0] == [];
  }

  /** And so is an added column whose definition only mentions it. */
  lemma {:induction false} AddedMentionIsMisread(t: string, n: string)
    ensures var script := [CreateTable(t, []), AddColumn(t, n, false, InPassing)];
            && Replay(script).Some? && Replay(script).value.columns == {(t, n)} && Replay(script).value.defaults == {}
            && ReportsDefault(script, (t, n))
  {
    var script := [CreateTable(t, []), AddColumn(t, n, false, InPassing)];
    assert script[..1] == [CreateTable(t, [])];
    assert Replay([CreateTable(t, [])]) == Step(Schema({}, {}, {}), script[0]);
    assert GivesLater(script[1], (t, n)) && script[1] in script;
  }
}
