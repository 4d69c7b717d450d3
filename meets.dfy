/**
 * The meet rules shared by the meet routes (server/src/routes/meets.ts): the errors the
 * handlers throw, the host-or-admin rule, the meet label, the phase transition table and its
 * handler, meet creation, the score reveal, and the values the detail view derives.
 */
module Meets {
  import opened Wrappers
  import opened Strings
  import opened Seqs
  import opened Store

  /** The errors the meet handlers report; the last two are the store's own constraint failures. */
  datatype MeetError =
    | MeetNotFound
    | Forbidden
    | InvalidTransition(from: Phase, to: string)
    | BookNotSelected
    | DateNotSelected
    | WrongPhase
    | BookIdRequired
    | BookNotFound
    | MultipleCandidates
    | NotSoleCandidate
    | ScoresNotRevealed
    | NotTopScorer
    | VotesRequired
    | WrongPointsTotal(total: int)
    | CandidateNotInMeet(candidateId: Id)
    | DateTimeRequired
    | DateOptionIdRequired
    | DateOptionNotFound
    | EntriesRequired
    | BookNotEligible
    | RankOutOfRange
    | TooManyEntries(limit: int)
    | UniqueViolation
    | ForeignKeyViolation

  /** `isHostOrAdmin`. */
  predicate IsHostOrAdmin(meet: Meet, actor: Actor) {
    meet.hostId == actor.id || actor.isAdmin
  }

  const DraftLabel := "Draft Meet by "

  /** `getMeetLabel`: "<title> at <host>" once a book with a non-empty title is selected, else the draft label. */
  function MeetLabel(hostUsername: string, selectedBookTitle: Option<string>): (r: string)
    ensures |r| >= |hostUsername| && r[|r| - |hostUsername|..] == hostUsername
    ensures selectedBookTitle.Some? && selectedBookTitle.value != "" ==>
      |r| >= |selectedBookTitle.value| && r[..|selectedBookTitle.value|] == selectedBookTitle.value
    ensures IsTruthy(selectedBookTitle) ==> r == selectedBookTitle.value + " at " + hostUsername
    ensures OrNull(selectedBookTitle).None? ==> r == DraftLabel + hostUsername
  {
    if selectedBookTitle.Some? && selectedBookTitle.value != "" then
      var r := selectedBookTitle.value + " at " + hostUsername;
      assert r[..|selectedBookTitle.value|] == selectedBookTitle.value;
      r
    else DraftLabel + hostUsername
  }

  /** The transition table of the phase handler; phases without an entry have no way out. */
  function Successors(p: Phase): seq<Phase> {
    match p
    case Draft => [Voting, Reading, Cancelled]
    case Voting => [Reading, Cancelled]
    case Reading => [Completed, Cancelled]
    case Completed => []
    case Cancelled => []
  }

  predicate CanTransition(from: Phase, to: Phase) {
    to in Successors(from)
  }

  /** The position of a phase in the life of a meet. */
  function Stage(p: Phase): nat {
    match p
    case Draft => 0
    case Voting => 1
    case Reading => 2
    case Completed => 3
    case Cancelled => 4
  }

  /**
   * Phases only move forward: every allowed transition raises the stage, so no meet returns
   * to an earlier phase, and completed and cancelled meets never change phase again.
   */
  lemma TransitionsMoveForward(from: Phase, to: Phase)
    ensures CanTransition(from, to) ==> Stage(from) < Stage(to)
    ensures (from == Completed || from == Cancelled) ==> !CanTransition(from, to)
    ensures !CanTransition(from, Draft)
  {
  }

  /** A selected date counts only when it is a non-empty string (the handler tests its truthiness). */
  predicate HasSelectedDate(meet: Meet) {
    meet.selectedDate.Some? && meet.selectedDate.value != ""
  }

  /** The guards of the phase handler, in the order they run. */
  function PhaseChangeCheck(meet: Option<Meet>, actor: Actor, target: string): (r: Outcome<MeetError>)
    ensures r == Pass <==>
      && meet.Some? && IsHostOrAdmin(meet.value, actor)
      && ParsePhase(target).Some? && CanTransition(meet.value.phase, ParsePhase(target).value)
      && (target == "reading" ==> meet.value.selectedBookId.Some? && HasSelectedDate(meet.value))
    ensures meet.Some? && !IsHostOrAdmin(meet.value, actor) ==> r == Fail(Forbidden)
    ensures r.Fail? && r.error.InvalidTransition? ==> meet.Some? && IsHostOrAdmin(meet.value, actor)
    ensures r.Fail? && (r.error == BookNotSelected || r.error == DateNotSelected) ==>
      target == "reading" && meet.Some? && CanTransition(meet.value.phase, Reading)
    ensures r == Fail(DateNotSelected) ==> meet.Some? && meet.value.selectedBookId.Some?
  {
    if meet.None? then Fail(MeetNotFound)
    else if !IsHostOrAdmin(meet.value, actor) then Fail(Forbidden)
    else if ParsePhase(target).None? || !CanTransition(meet.value.phase, ParsePhase(target).value) then
      Fail(InvalidTransition(meet.value.phase, target))
    else if target == "reading" && meet.value.selectedBookId.None? then Fail(BookNotSelected)
    else if target == "reading" && !HasSelectedDate(meet.value) then Fail(DateNotSelected)
    else Pass
  }

  /** The meet the store holds under `id`, if any. */
  function Lookup(meets: map<Id, Meet>, id: Id): Option<Meet> {
    if id in meets then Some(meets[id]) else None
  }

  /** The phase handler: on success only the phase of that one meet changes. */
  method ChangePhase(db: Db, actor: Actor, meetId: Id, target: string) returns (r: Outcome<MeetError>)
    requires db.Valid()
    modifies db`meets
    ensures db.Valid()
    ensures r == PhaseChangeCheck(Lookup(old(db.meets), meetId), actor, target)
    ensures r.Pass? ==> db.meets == old(db.meets)[meetId := old(db.meets)[meetId].(phase := ParsePhase(target).value)]
    ensures r.Fail? ==> db.meets == old(db.meets)
  {
    r := PhaseChangeCheck(Lookup(db.meets, meetId), actor, target);
    if r.Pass? {
      db.meets := db.meets[meetId := db.meets[meetId].(phase := ParsePhase(target).value)];
    }
  }

  /** Creating a meet: a draft hosted by the caller, nothing selected, scores hidden, empty strings stored as null. */
  method CreateMeet(db: Db, actor: Actor, location: Option<string>, description: Option<string>)
    returns (id: Id, meetLabel: string)
    requires db.Valid()
    modifies db`meets, db`nextId
    ensures db.Valid()
    ensures id !in old(db.meets)
    ensures db.meets == old(db.meets)[id := Meet(actor.id, Draft, None, None, OrNull(location), OrNull(description), false)]
    ensures meetLabel == MeetLabel(actor.username, None)
  {
    id := db.FreshId();
    db.meets := db.meets[id := Meet(actor.id, Draft, None, None, OrNull(location), OrNull(description), false)];
    meetLabel := DraftLabel + actor.username;
  }

  /**
   * The guards shared by the handlers that edit a draft meet (removing a candidate, adding or
   * removing a date option): the meet exists, is still a draft, and the caller hosts it or is an admin.
   */
  function DraftEditCheck(meet: Option<Meet>, actor: Actor): (r: Outcome<MeetError>)
    ensures r == Pass <==> meet.Some? && meet.value.phase == Draft && IsHostOrAdmin(meet.value, actor)
    ensures meet.Some? && meet.value.phase != Draft ==> r == Fail(WrongPhase)
    ensures r == Fail(Forbidden) ==> meet.Some? && meet.value.phase == Draft
  {
    if meet.None? then Fail(MeetNotFound)
    else if meet.value.phase != Draft then Fail(WrongPhase)
    else if !IsHostOrAdmin(meet.value, actor) then Fail(Forbidden)
    else Pass
  }

  /** The guards of the reveal handler: any phase will do. */
  function RevealCheck(meet: Option<Meet>, actor: Actor): (r: Outcome<MeetError>)
    ensures r == Pass <==> meet.Some? && IsHostOrAdmin(meet.value, actor)
    ensures r.Fail? ==> r.error == MeetNotFound || r.error == Forbidden
  {
    if meet.None? then Fail(MeetNotFound)
    else if !IsHostOrAdmin(meet.value, actor) then Fail(Forbidden)
    else Pass
  }

  method RevealScores(db: Db, actor: Actor, meetId: Id) returns (r: Outcome<MeetError>)
    requires db.Valid()
    modifies db`meets
    ensures db.Valid()
    ensures r == RevealCheck(Lookup(old(db.meets), meetId), actor)
    ensures r.Pass? ==> db.meets == old(db.meets)[meetId := old(db.meets)[meetId].(votingPointsRevealed := true)]
    ensures r.Fail? ==> db.meets == old(db.meets)
  {
    r := RevealCheck(Lookup(db.meets, meetId), actor);
    if r.Pass? {
      db.meets := db.meets[meetId := db.meets[meetId].(votingPointsRevealed := true)];
    }
  }

  // ----- Values the detail view derives -----

  /** The candidates of one meet, in table order. */
  function CandidatesOf(candidates: seq<Candidate>, meetId: Id): (r: seq<Candidate>)
    ensures forall c :: c in r <==> c in candidates && c.meetId == meetId
  {
    Filter(candidates, (c: Candidate) => c.meetId == meetId)
  }

  /** The sum of the points of all vote rows for one candidate. */
  function CandidateTotal(votes: seq<CandidateVote>, candidateId: Id): int {
    if votes == [] then 0
    else
      var last := votes[|votes| - 1];
      CandidateTotal(votes[..|votes| - 1], candidateId) + (if last.candidateId == candidateId then last.points else 0)
  }

  lemma {:induction false} CandidateTotalAppend(a: seq<CandidateVote>, b: seq<CandidateVote>, candidateId: Id)
    ensures CandidateTotal(a + b, candidateId) == CandidateTotal(a, candidateId) + CandidateTotal(b, candidateId)
  {
    if b == [] {
      assert a + b == a;
    } else {
      assert (a + b)[..|a + b| - 1] == a + b[..|b| - 1];
      CandidateTotalAppend(a, b[..|b| - 1], candidateId);
    }
  }

  /** Rows that are not for the candidate do not count towards its total. */
  lemma {:induction false} CandidateTotalOthers(votes: seq<CandidateVote>, candidateId: Id)
    requires forall k :: 0 <= k < |votes| ==> votes[k].candidateId != candidateId
    ensures CandidateTotal(votes, candidateId) == 0
  {
    if votes != [] {
      CandidateTotalOthers(votes[..|votes| - 1], candidateId);
    }
  }

  /** Whether the book is the selected book of some completed meet: the "already read" warning. */
  predicate SelectedInCompletedMeet(meets: map<Id, Meet>, bookId: Id) {
    exists id :: id in meets && meets[id].phase == Completed && meets[id].selectedBookId == Some(bookId)
  }

  /** Points are shown once revealed, and always in the reading and completed phases. */
  predicate PointsVisible(meet: Meet) {
    meet.votingPointsRevealed || meet.phase == Reading || meet.phase == Completed
  }

  datatype CandidateView = CandidateView(candidate: Candidate, alreadySelected: bool, points: Option<int>)

  /** The candidate list of the detail view: each candidate with its warning, and its points when visible. */
  function CandidateViews(meet: Meet, meets: map<Id, Meet>, candidates: seq<Candidate>, votes: seq<CandidateVote>)
    : (r: seq<CandidateView>)
    ensures |r| == |candidates|
    ensures forall k :: 0 <= k < |r| ==> r[k].candidate == candidates[k]
    ensures forall k :: 0 <= k < |r| ==> (r[k].alreadySelected <==> SelectedInCompletedMeet(meets, candidates[k].bookId))
    ensures forall k :: 0 <= k < |r| ==> (r[k].points.Some? <==> PointsVisible(meet))
    ensures forall k :: 0 <= k < |r| && r[k].points.Some? ==> r[k].points.value == CandidateTotal(votes, candidates[k].id)
  {
    seq(|candidates|, k requires 0 <= k < |candidates| =>
      CandidateView(candidates[k], SelectedInCompletedMeet(meets, candidates[k].bookId),
        if PointsVisible(meet) then Some(CandidateTotal(votes, candidates[k].id)) else None))
  }

  datatype VoterStatus = VoterStatus(userId: Id, username: string, hasVoted: bool)

  /** Whether some vote row of the meet belongs to the user. */
  predicate HasVoted(votes: seq<CandidateVote>, meetId: Id, userId: Id) {
    exists k :: 0 <= k < |votes| && votes[k].meetId == meetId && votes[k].userId == userId
  }

  /** The members, that is the non-temporary users, in table order. */
  function Members(users: seq<User>): (r: seq<User>)
    ensures forall u :: u in r <==> u in users && !u.isTemporary
  {
    Filter(users, (u: User) => !u.isTemporary)
  }

  /** The vote status of the detail view and of the status route: every member, and whether they voted in this meet. */
  function VoteStatus(users: seq<User>, votes: seq<CandidateVote>, meetId: Id): (r: seq<VoterStatus>)
    ensures |r| == |Members(users)|
    ensures forall k :: 0 <= k < |r| ==> r[k].userId == Members(users)[k].id && r[k].username == Members(users)[k].username
    ensures forall k :: 0 <= k < |r| ==> (r[k].hasVoted <==> HasVoted(votes, meetId, r[k].userId))
  {
    var members := Members(users);
    seq(|members|, k requires 0 <= k < |members| =>
      VoterStatus(members[k].id, members[k].username, HasVoted(votes, meetId, members[k].id)))
  }
}
