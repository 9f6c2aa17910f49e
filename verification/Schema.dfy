/**
 The ten tables: rows, keys, CHECKs, unique indexes and foreign keys, as the
 initial migration creates them.  Columns that no constraint mentions are left
 out; NOT NULL is the absence of an option.
 */
module Schema {
  import opened Options

  type Id = int

  datatype Table =
    | Organizations | Users | Contests | Categories | Candidates
    | VotePackages | Subaccounts | Transactions | Votes | Settlements

  /** Percentages are counted in hundredths, money in kobo, instants in ticks. */
  datatype Row =
    | Organization(fee: Option<int>, createdBy: Option<Id>)
    | User(email: string, role: string, organization: Option<Id>)
    | Contest(organizationId: Id, status: string, contestFee: Option<int>, startsAt: int, endsAt: int)
    | Category(contestId: Id, name: string)
    | Candidate(categoryId: Id, user: Option<Id>, slug: string, status: string, disqualificationReason: Option<string>)
    | VotePackage(contestId: Id, amountKobo: int, voteCount: int)
    | Subaccount(candidateId: Id, code: Option<string>, percentageCharge: Option<int>, status: string)
    | Transaction(candidateId: Id, packageId: Id, contestId: Id, reference: string, amountKobo: int, status: string,
                  matric: Option<string>, enforceCap: bool, confirmedAt: Option<int>)
    | Vote(transactionId: Id, candidateId: Id, createdAt: int)
    | Settlement(candidateId: Id, periodStart: int, periodEnd: int, amountKobo: int, status: string,
                 actionedBy: Option<Id>, actionedAt: Option<int>)

  function TableOf(r: Row): Table {
    match r
    case Organization(_, _) => Organizations
    case User(_, _, _) => Users
    case Contest(_, _, _, _, _) => Contests
    case Category(_, _) => Categories
    case Candidate(_, _, _, _, _) => Candidates
    case VotePackage(_, _, _) => VotePackages
    case Subaccount(_, _, _, _) => Subaccounts
    case Transaction(_, _, _, _, _, _, _, _, _) => Transactions
    case Vote(_, _, _) => Votes
    case Settlement(_, _, _, _, _, _, _) => Settlements
  }

  datatype Key = Key(table: Table, id: Id)

  type Db = map<Key, Row>

  // ----- foreign keys -----

  datatype Fk =
    | OrganizationCreatedBy | UserOrganization | ContestOrganization | CategoryContest
    | CandidateCategory | CandidateUser | PackageContest | SubaccountCandidate
    | TransactionCandidate | TransactionPackage | TransactionContest
    | VoteTransaction | VoteCandidate | SettlementCandidate | SettlementUser

  datatype Action = Cascade | SetNull | Restrict

  function Child(fk: Fk): Table {
    match fk
    case OrganizationCreatedBy => Organizations
    case UserOrganization => Users
    case ContestOrganization => Contests
    case CategoryContest => Categories
    case CandidateCategory => Candidates
    case CandidateUser => Candidates
    case PackageContest => VotePackages
    case SubaccountCandidate => Subaccounts
    case TransactionCandidate => Transactions
    case TransactionPackage => Transactions
    case TransactionContest => Transactions
    case VoteTransaction => Votes
    case VoteCandidate => Votes
    case SettlementCandidate => Settlements
    case SettlementUser => Settlements
  }

  function Parent(fk: Fk): Table {
    match fk
    case OrganizationCreatedBy => Users
    case UserOrganization => Organizations
    case ContestOrganization => Organizations
    case CategoryContest => Contests
    case CandidateCategory => Categories
    case CandidateUser => Users
    case PackageContest => Contests
    case SubaccountCandidate => Candidates
    case TransactionCandidate => Candidates
    case TransactionPackage => VotePackages
    case TransactionContest => Contests
    case VoteTransaction => Transactions
    case VoteCandidate => Candidates
    case SettlementCandidate => Candidates
    case SettlementUser => Users
  }

  /** ON DELETE. */
  function OnDelete(fk: Fk): Action {
    match fk
    case OrganizationCreatedBy => SetNull
    case UserOrganization => SetNull
    case ContestOrganization => Cascade
    case CategoryContest => Cascade
    case CandidateCategory => Cascade
    case CandidateUser => SetNull
    case PackageContest => Cascade
    case SubaccountCandidate => Cascade
    case TransactionCandidate => Restrict
    case TransactionPackage => Restrict
    case TransactionContest => Restrict
    case VoteTransaction => Restrict
    case VoteCandidate => Restrict
    case SettlementCandidate => Restrict
    case SettlementUser => SetNull
  }

  /** The value of the referencing column, if the row has one and it is not null. */
  function Ref(fk: Fk, r: Row): Option<Id> {
    if Child(fk) != TableOf(r) then None
    else match fk
         case OrganizationCreatedBy => r.createdBy
         case UserOrganization => r.organization
         case ContestOrganization => Some(r.organizationId)
         case CategoryContest => Some(r.contestId)
         case CandidateCategory => Some(r.categoryId)
         case CandidateUser => r.user
         case PackageContest => Some(r.contestId)
         case SubaccountCandidate => Some(r.candidateId)
         case TransactionCandidate => Some(r.candidateId)
         case TransactionPackage => Some(r.packageId)
         case TransactionContest => Some(r.contestId)
         case VoteTransaction => Some(r.transactionId)
         case VoteCandidate => Some(r.candidateId)
         case SettlementCandidate => Some(r.candidateId)
         case SettlementUser => r.actionedBy
  }

  /** The row refers to `p` through `fk`. */
  predicate PointsAt(fk: Fk, r: Row, p: Key) {
    p.table == Parent(fk) && Ref(fk, r) == Some(p.id)
  }

  /** The row with the nullable column of `fk` set to null. */
  function Cleared(fk: Fk, r: Row): Row
    requires OnDelete(fk) == SetNull && TableOf(r) == Child(fk)
  {
    match fk
    case OrganizationCreatedBy => r.(createdBy := None)
    case UserOrganization => r.(organization := None)
    case CandidateUser => r.(user := None)
    case SettlementUser => r.(actionedBy := None)
  }

  // ----- CHECK constraints -----

  predicate FeeInRange(fee: Option<int>) {
    fee == None || 0 <= fee.value <= 10000
  }

  predicate Checked(r: Row) {
    match r
    case Organization(fee, _) => FeeInRange(fee)
    case User(_, role, _) => role in ["admin", "organizer", "candidate"]
    case Contest(_, status, fee, starts, ends) =>
      status in ["draft", "active", "closed"] && ends > starts && FeeInRange(fee)
    case Category(_, _) => true
    case Candidate(_, _, _, status, reason) =>
      status in ["pending_approval", "approved", "disqualified"] && (status != "disqualified" || reason.Some?)
    case VotePackage(_, amount, count) => amount > 0 && count > 0
    case Subaccount(_, code, charge, status) =>
      status in ["pending", "verified"] && (status != "verified" || code.Some?) && FeeInRange(charge)
    case Transaction(_, _, _, _, amount, status, matric, cap, confirmed) =>
      && status in ["pending", "success", "failed"]
      && amount > 0
      && (status != "success" || confirmed.Some?)
      && (!cap || matric.Some?)
    case Vote(_, _, _) => true
    case Settlement(_, from, to, amount, status, _, actioned) =>
      && status in ["held", "released", "reversed"]
      && amount >= 0
      && to >= from
      && (status == "held" || actioned.Some?)
  }

  // ----- unique constraints and indexes -----

  datatype Unique =
    | UserEmail | CategoryName | CandidateSlug | SubaccountOwner | SubaccountCode
    | TransactionReference | IdentityCap

  datatype Entry = ByText(text: string) | ById(id: Id) | ByBoth(id: Id, text: string)

  /** The row holds its identity: `enforce_identity_cap AND status IN ('pending',
      'success')`. */
  predicate LiveCapped(r: Row) {
    r.Transaction? && r.enforceCap && r.status in ["pending", "success"]
  }

  /** What the row puts in the index.  A null never equals anything, so a row
      with a null in an indexed column enters nothing that could collide. */
  function EntryOf(u: Unique, r: Row): Option<Entry> {
    match u
    case UserEmail => if r.User? then Some(ByText(r.email)) else None
    case CategoryName => if r.Category? then Some(ByBoth(r.contestId, r.name)) else None
    case CandidateSlug => if r.Candidate? then Some(ByText(r.slug)) else None
    case SubaccountOwner => if r.Subaccount? then Some(ById(r.candidateId)) else None
    case SubaccountCode => if r.Subaccount? && r.code.Some? then Some(ByText(r.code.value)) else None
    case TransactionReference => if r.Transaction? then Some(ByText(r.reference)) else None
    case IdentityCap => if LiveCapped(r) && r.matric.Some? then Some(ByBoth(r.contestId, r.matric.value)) else None
  }

  // ----- integrity -----

  ghost predicate Typed(db: Db) {
    forall k :: k in db ==> TableOf(db[k]) == k.table
  }

  ghost predicate AllChecked(db: Db) {
    forall k :: k in db ==> Checked(db[k])
  }

  ghost predicate AllUnique(db: Db) {
    forall j, k, u :: j in db && k in db && j != k && EntryOf(u, db[j]).Some? ==> EntryOf(u, db[j]) != EntryOf(u, db[k])
  }

  ghost predicate Refers(db: Db) {
    forall k, fk :: k in db && Ref(fk, db[k]).Some? ==> Key(Parent(fk), Ref(fk, db[k]).value) in db
  }

  /** What the database guarantees between statements. */
  ghost predicate Integrity(db: Db) {
    Typed(db) && AllChecked(db) && AllUnique(db) && Refers(db)
  }
}
