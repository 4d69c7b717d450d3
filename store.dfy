/**
 * The SQLite store behind the routes (server/src/db/schema.ts, server/src/db/init.ts): one
 * row type per table the core touches, and a class holding the tables. Primary-key tables
 * (books, meets) are maps from id to row; the other tables are sequences of rows in table
 * order. Ids are abstract numbers drawn from a counter.
 */
module Store {
  import opened Wrappers
  import opened Seqs

  type Id = nat

  /** The five meet phases, stored as their names. */
  datatype Phase = Draft | Voting | Reading | Completed | Cancelled

  function PhaseName(p: Phase): string {
    match p
    case Draft => "draft"
    case Voting => "voting"
    case Reading => "reading"
    case Completed => "completed"
    case Cancelled => "cancelled"
  }

  /** The phase with the given name, if any. */
  function ParsePhase(s: string): (r: Option<Phase>)
    ensures r.Some? ==> PhaseName(r.value) == s
    ensures r.None? ==> forall p :: PhaseName(p) != s
  {
    if s == "draft" then Some(Draft)
    else if s == "voting" then Some(Voting)
    else if s == "reading" then Some(Reading)
    else if s == "completed" then Some(Completed)
    else if s == "cancelled" then Some(Cancelled)
    else None
  }

  /** Each phase's name reads back as that phase. */
  lemma PhaseNameRoundTrip(p: Phase)
    ensures ParsePhase(PhaseName(p)) == Some(p)
  {
  }

  /** The authenticated caller, as the authentication middleware hands it over. */
  datatype Actor = Actor(id: Id, username: string, isAdmin: bool)

  datatype User = User(id: Id, username: string, isTemporary: bool)

  datatype Book = Book(
    title: string, author: string, year: Option<string>, country: Option<string>,
    originalLanguage: Option<string>, bookType: Option<string>, introduction: Option<string>,
    addedBy: Id)

  datatype Comment = Comment(bookId: Id, userId: Id, content: string)

  datatype Meet = Meet(
    hostId: Id, phase: Phase, selectedBookId: Option<Id>, selectedDate: Option<string>,
    location: Option<string>, description: Option<string>, votingPointsRevealed: bool)

  datatype Candidate = Candidate(id: Id, meetId: Id, bookId: Id, motivation: Option<string>, addedBy: Id)

  datatype CandidateVote = CandidateVote(meetId: Id, candidateId: Id, userId: Id, points: int)

  datatype DateOption = DateOption(id: Id, meetId: Id, dateTime: string)

  datatype DateVote = DateVote(dateOptionId: Id, userId: Id, availability: string)

  datatype Top5Entry = Top5Entry(meetId: Id, userId: Id, bookId: Id, rank: int)

  /** The keys of the unique indexes (schema.ts lines 74, 89 and 116) and of the id columns. */
  function VoteKey(v: CandidateVote): (Id, Id) { (v.candidateId, v.userId) }
  function DateVoteKey(v: DateVote): (Id, Id) { (v.dateOptionId, v.userId) }
  function Top5Key(e: Top5Entry): (Id, Id, int) { (e.meetId, e.userId, e.rank) }
  function CandidateId(c: Candidate): Id { c.id }
  function DateOptionId(o: DateOption): Id { o.id }

  /** Whether `candidates` holds a candidate with this id in this meet. */
  predicate IsCandidateOf(candidates: seq<Candidate>, candidateId: Id, meetId: Id) {
    exists k :: 0 <= k < |candidates| && candidates[k].id == candidateId && candidates[k].meetId == meetId
  }

  class Db {
    var users: seq<User>
    var books: map<Id, Book>
    var comments: seq<Comment>
    var meets: map<Id, Meet>
    var candidates: seq<Candidate>
    var votes: seq<CandidateVote>
    var dateOptions: seq<DateOption>
    var dateVotes: seq<DateVote>
    var top5: seq<Top5Entry>
    /** Every id handed out so far is below this counter. */
    var nextId: nat

    /**
     * What the schema guarantees of any state: the primary and unique keys are unique, the
     * foreign keys the core relies on point at existing rows, and no id reaches the counter.
     */
    ghost predicate Valid()
      reads this
    {
      && (forall id :: id in books ==> id < nextId)
      && (forall id :: id in meets ==> id < nextId)
      && (forall k :: 0 <= k < |candidates| ==> candidates[k].id < nextId)
      && (forall k :: 0 <= k < |dateOptions| ==> dateOptions[k].id < nextId)
      && KeysDistinct(candidates, CandidateId)
      && KeysDistinct(dateOptions, DateOptionId)
      && KeysDistinct(votes, VoteKey)
      && KeysDistinct(dateVotes, DateVoteKey)
      && KeysDistinct(top5, Top5Key)
      && (forall k :: 0 <= k < |votes| ==> IsCandidateOf(candidates, votes[k].candidateId, votes[k].meetId))
      && (forall id :: id in meets && meets[id].selectedBookId.Some? ==> meets[id].selectedBookId.value in books)
      && (forall k :: 0 <= k < |candidates| ==> candidates[k].bookId in books)
      && (forall k :: 0 <= k < |dateVotes| ==> HasKey(dateOptions, DateOptionId, dateVotes[k].dateOptionId))
      && (forall k :: 0 <= k < |top5| ==> top5[k].bookId in books)
    }

    /** An empty store. */
    constructor ()
      ensures Valid()
      ensures users == [] && books == map[] && comments == [] && meets == map[]
      ensures candidates == [] && votes == [] && dateOptions == [] && dateVotes == [] && top5 == []
    {
      users, books, comments, meets := [], map[], [], map[];
      candidates, votes, dateOptions, dateVotes, top5 := [], [], [], [], [];
      nextId := 0;
    }

    /** A fresh id (the routes call `uuid()`): one that no row carries yet. */
    method FreshId() returns (id: Id)
      requires Valid()
      modifies this`nextId
      ensures Valid()
      ensures id == old(nextId) && nextId == id + 1
      ensures id !in books && id !in meets
      ensures forall k :: 0 <= k < |candidates| ==> candidates[k].id != id
      ensures forall k :: 0 <= k < |dateOptions| ==> dateOptions[k].id != id
    {
      id := nextId;
      nextId := nextId + 1;
    }
  }
}
