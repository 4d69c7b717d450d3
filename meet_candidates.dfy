/**
 * The candidate routes of server/src/routes/meets.ts: adding and removing candidate books,
 * selecting the meet's book (directly in the draft phase, from the top scorers after the
 * reveal in the voting phase) and the unguarded tie resolution.
 */
module MeetCandidates {
  import opened Wrappers
  import opened Strings
  import opened Seqs
  import opened Store
  import opened Meets

  /** The guards of the add-candidate handler; here the phase is checked before the caller. */
  function AddCandidateCheck(meet: Option<Meet>, actor: Actor, bookId: Option<Id>, books: map<Id, Book>)
    : (r: Outcome<MeetError>)
    ensures r == Pass <==>
      meet.Some? && meet.value.phase == Draft && IsHostOrAdmin(meet.value, actor) && bookId.Some? && bookId.value in books
    ensures meet.Some? && meet.value.phase != Draft ==> r == Fail(WrongPhase)
    ensures r == Fail(Forbidden) ==> meet.Some? && meet.value.phase == Draft
    ensures r == Fail(BookNotFound) ==> bookId.Some? && bookId.value !in books
  {
    if meet.None? then Fail(MeetNotFound)
    else if meet.value.phase != Draft then Fail(WrongPhase)
    else if !IsHostOrAdmin(meet.value, actor) then Fail(Forbidden)
    else if bookId.None? then Fail(BookIdRequired)
    else if bookId.value !in books then Fail(BookNotFound)
    else Pass
  }

  /**
   * Adding a candidate: on success one row is appended under a fresh id, and the handler
   * answers with that id and whether the book was already read in a completed meet.
   */
  method AddCandidate(db: Db, actor: Actor, meetId: Id, bookId: Option<Id>, motivation: Option<string>)
    returns (r: Result<(Id, bool), MeetError>)
    requires db.Valid()
    modifies db`candidates, db`nextId
    ensures db.Valid()
    ensures var check := AddCandidateCheck(Lookup(old(db.meets), meetId), actor, bookId, old(db.books));
      && (check.Fail? ==> r == Err(check.error) && db.candidates == old(db.candidates) && db.nextId == old(db.nextId))
      && (check.Pass? ==>
            (&& r.Ok? && r.value.1 == SelectedInCompletedMeet(db.meets, bookId.value)
             && (forall k :: 0 <= k < |old(db.candidates)| ==> old(db.candidates)[k].id != r.value.0)
             && db.candidates == old(db.candidates) + [Candidate(r.value.0, meetId, bookId.value, OrNull(motivation), actor.id)]))
  {
    var check := AddCandidateCheck(Lookup(db.meets, meetId), actor, bookId, db.books);
    if check.Fail? {
      return Err(check.error);
    }
    var id := db.FreshId();
    var row := Candidate(id, meetId, bookId.value, OrNull(motivation), actor.id);
    ghost var before := db.candidates;
    db.candidates := db.candidates + [row];
    assert KeysDistinct(db.candidates, CandidateId) by {
      forall i, j | 0 <= i < j < |db.candidates| ensures db.candidates[i].id != db.candidates[j].id {
        assert db.candidates[i] == before[i];
      }
    }
    assert forall k :: 0 <= k < |db.votes| ==> IsCandidateOf(db.candidates, db.votes[k].candidateId, db.votes[k].meetId) by {
      forall k | 0 <= k < |db.votes| ensures IsCandidateOf(db.candidates, db.votes[k].candidateId, db.votes[k].meetId) {
        var j :| 0 <= j < |before| && before[j].id == db.votes[k].candidateId && before[j].meetId == db.votes[k].meetId;
        assert db.candidates[j] == before[j];
      }
    }
    r := Ok((id, SelectedInCompletedMeet(db.meets, bookId.value)));
  }

  /** A store without the candidate row and, by the cascade, without its votes. */
  predicate IsNotCandidate(c: Candidate, candidateId: Id) { c.id != candidateId }
  predicate IsNotVoteFor(v: CandidateVote, candidateId: Id) { v.candidateId != candidateId }

  /**
   * Removing a candidate deletes the row with that id whatever meet it belongs to (the
   * delete is not scoped to the meet of the route), and the cascade deletes its votes.
   */
  method RemoveCandidate(db: Db, actor: Actor, meetId: Id, candidateId: Id) returns (r: Outcome<MeetError>)
    requires db.Valid()
    modifies db`candidates, db`votes
    ensures db.Valid()
    ensures r == DraftEditCheck(Lookup(old(db.meets), meetId), actor)
    ensures r.Fail? ==> db.candidates == old(db.candidates) && db.votes == old(db.votes)
    ensures r.Pass? ==> db.candidates == Filter(old(db.candidates), c => IsNotCandidate(c, candidateId))
    ensures r.Pass? ==> db.votes == Filter(old(db.votes), v => IsNotVoteFor(v, candidateId))
  {
    r := DraftEditCheck(Lookup(db.meets, meetId), actor);
    if r.Fail? {
      return;
    }
    RemovalKeepsReferences(db.candidates, db.votes, candidateId, db.nextId, db.books);
    db.candidates := Filter(db.candidates, c => IsNotCandidate(c, candidateId));
    db.votes := Filter(db.votes, v => IsNotVoteFor(v, candidateId));
  }

  /** The candidate removal and its cascade keep the ids, the unique keys and the vote references intact. */
  lemma RemovalKeepsReferences(cands: seq<Candidate>, votes: seq<CandidateVote>, candidateId: Id, nextId: nat,
                                books: map<Id, Book>)
    requires forall k :: 0 <= k < |cands| ==> cands[k].id < nextId && cands[k].bookId in books
    requires KeysDistinct(cands, CandidateId) && KeysDistinct(votes, VoteKey)
    requires forall k :: 0 <= k < |votes| ==> IsCandidateOf(cands, votes[k].candidateId, votes[k].meetId)
    ensures var cs := Filter(cands, c => IsNotCandidate(c, candidateId));
      var vs := Filter(votes, v => IsNotVoteFor(v, candidateId));
      && (forall k :: 0 <= k < |cs| ==> cs[k].id < nextId && cs[k].bookId in books)
      && KeysDistinct(cs, CandidateId) && KeysDistinct(vs, VoteKey)
      && (forall k :: 0 <= k < |vs| ==> IsCandidateOf(cs, vs[k].candidateId, vs[k].meetId))
  {
    var cs := Filter(cands, c => IsNotCandidate(c, candidateId));
    var vs := Filter(votes, v => IsNotVoteFor(v, candidateId));
    FilterDistinct(cands, c => IsNotCandidate(c, candidateId), CandidateId);
    FilterDistinct(votes, v => IsNotVoteFor(v, candidateId), VoteKey);
    forall k | 0 <= k < |cs| ensures cs[k].id < nextId && cs[k].bookId in books {
      assert cs[k] in cands;
    }
    forall k | 0 <= k < |vs| ensures IsCandidateOf(cs, vs[k].candidateId, vs[k].meetId) {
      var v := vs[k];
      assert v in votes;
      var i :| 0 <= i < |votes| && votes[i] == v;
      var j :| 0 <= j < |cands| && cands[j].id == v.candidateId && cands[j].meetId == v.meetId;
      assert cands[j] in cs;
    }
  }

  /** The greatest vote total among the candidates. */
  function MaxTotal(cands: seq<Candidate>, votes: seq<CandidateVote>): (m: int)
    requires |cands| > 0
    ensures exists k :: 0 <= k < |cands| && CandidateTotal(votes, cands[k].id) == m
    ensures forall k :: 0 <= k < |cands| ==> CandidateTotal(votes, cands[k].id) <= m
  {
    if |cands| == 1 then CandidateTotal(votes, cands[0].id)
    else
      var rest := MaxTotal(cands[1..], votes);
      assert forall k :: 1 <= k < |cands| ==> cands[k] == cands[1..][k - 1];
      var head := CandidateTotal(votes, cands[0].id);
      if head >= rest then head else rest
  }

  /**
   * Whether `bookId` is among the top-scoring candidates: the handler takes the maximum of the
   * totals and keeps the candidates that reach it. No candidates, no top scorer.
   */
  function IsTopScorer(cands: seq<Candidate>, votes: seq<CandidateVote>, bookId: Id): (r: bool)
    ensures r <==> exists k :: 0 <= k < |cands| && cands[k].bookId == bookId &&
                     forall j :: 0 <= j < |cands| ==> CandidateTotal(votes, cands[j].id) <= CandidateTotal(votes, cands[k].id)
  {
    if |cands| == 0 then false
    else
      var m := MaxTotal(cands, votes);
      exists k :: 0 <= k < |cands| && CandidateTotal(votes, cands[k].id) == m && cands[k].bookId == bookId
  }

  /** The guards of the select-book handler, with the separate rules of the draft and the voting phase. */
  function SelectBookCheck(meet: Option<Meet>, actor: Actor, bookId: Option<Id>, cands: seq<Candidate>,
                           votes: seq<CandidateVote>): (r: Outcome<MeetError>)
    ensures r == Pass <==>
      && meet.Some? && IsHostOrAdmin(meet.value, actor) && bookId.Some?
      && (|| (meet.value.phase == Draft && (|cands| == 0 || (|cands| == 1 && cands[0].bookId == bookId.value)))
          || (meet.value.phase == Voting && meet.value.votingPointsRevealed && IsTopScorer(cands, votes, bookId.value)))
    ensures meet.Some? && IsHostOrAdmin(meet.value, actor) && bookId.Some? && meet.value.phase == Draft && |cands| > 1
      ==> r == Fail(MultipleCandidates)
    ensures (meet.Some? && IsHostOrAdmin(meet.value, actor) && bookId.Some? && meet.value.phase == Voting &&
             !meet.value.votingPointsRevealed) ==> r == Fail(ScoresNotRevealed)
  {
    if meet.None? then Fail(MeetNotFound)
    else if !IsHostOrAdmin(meet.value, actor) then Fail(Forbidden)
    else if bookId.None? then Fail(BookIdRequired)
    else if meet.value.phase == Draft then
      if |cands| > 1 then Fail(MultipleCandidates)
      else if |cands| == 1 && cands[0].bookId != bookId.value then Fail(NotSoleCandidate)
      else Pass
    else if meet.value.phase == Voting then
      if !meet.value.votingPointsRevealed then Fail(ScoresNotRevealed)
      else if !IsTopScorer(cands, votes, bookId.value) then Fail(NotTopScorer)
      else Pass
    else Fail(WrongPhase)
  }

  /**
   * Selecting the book: after the guards, the update of the meet fails on the foreign key when
   * no such book exists; otherwise only the meet's selected book changes, and the handler
   * answers whether that book was already read in a completed meet.
   */
  method SelectBook(db: Db, actor: Actor, meetId: Id, bookId: Option<Id>) returns (r: Result<bool, MeetError>)
    requires db.Valid()
    modifies db`meets
    ensures db.Valid()
    ensures var check := SelectBookCheck(Lookup(old(db.meets), meetId), actor, bookId,
                                         CandidatesOf(old(db.candidates), meetId), old(db.votes));
      && (check.Fail? ==> r == Err(check.error) && db.meets == old(db.meets))
      && (check.Pass? && bookId.value !in old(db.books) ==> r == Err(ForeignKeyViolation) && db.meets == old(db.meets))
      && (check.Pass? && bookId.value in old(db.books) ==>
            && db.meets == old(db.meets)[meetId := old(db.meets)[meetId].(selectedBookId := bookId)]
            && r == Ok(SelectedInCompletedMeet(db.meets, bookId.value)))
  {
    var check := SelectBookCheck(Lookup(db.meets, meetId), actor, bookId, CandidatesOf(db.candidates, meetId), db.votes);
    if check.Fail? {
      return Err(check.error);
    }
    if bookId.value !in db.books {
      return Err(ForeignKeyViolation);
    }
    db.meets := db.meets[meetId := db.meets[meetId].(selectedBookId := bookId)];
    r := Ok(SelectedInCompletedMeet(db.meets, bookId.value));
  }

  /** The guards of the tie resolution: neither the phase nor the candidates are consulted. */
  function ResolveTieCheck(meet: Option<Meet>, actor: Actor, bookId: Option<Id>): (r: Outcome<MeetError>)
    ensures r == Pass <==> meet.Some? && IsHostOrAdmin(meet.value, actor) && bookId.Some?
  {
    if meet.None? then Fail(MeetNotFound)
    else if !IsHostOrAdmin(meet.value, actor) then Fail(Forbidden)
    else if bookId.None? then Fail(BookIdRequired)
    else Pass
  }

  method ResolveTie(db: Db, actor: Actor, meetId: Id, bookId: Option<Id>) returns (r: Outcome<MeetError>)
    requires db.Valid()
    modifies db`meets
    ensures db.Valid()
    ensures var check := ResolveTieCheck(Lookup(old(db.meets), meetId), actor, bookId);
      && (check.Fail? ==> r == check && db.meets == old(db.meets))
      && (check.Pass? && bookId.value !in old(db.books) ==> r == Fail(ForeignKeyViolation) && db.meets == old(db.meets))
      && (check.Pass? && bookId.value in old(db.books) ==>
            r == Pass && db.meets == old(db.meets)[meetId := old(db.meets)[meetId].(selectedBookId := bookId)])
  {
    r := ResolveTieCheck(Lookup(db.meets, meetId), actor, bookId);
    if r.Fail? {
      return;
    }
    if bookId.value !in db.books {
      return Fail(ForeignKeyViolation);
    }
    db.meets := db.meets[meetId := db.meets[meetId].(selectedBookId := bookId)];
  }

  /**
   * Any book that exists can be made the selected book of any meet one hosts, in any phase,
   * whatever the votes: the tie resolution is not limited to tied candidates.
   */
  lemma ResolveTieIgnoresVotes(meet: Meet, actor: Actor, bookId: Id, cands: seq<Candidate>, votes: seq<CandidateVote>)
    requires IsHostOrAdmin(meet, actor) && meet.phase == Voting && meet.votingPointsRevealed
    requires !IsTopScorer(cands, votes, bookId)
    ensures ResolveTieCheck(Some(meet), actor, Some(bookId)) == Pass
    ensures SelectBookCheck(Some(meet), actor, Some(bookId), cands, votes) == Fail(NotTopScorer)
  {
  }
}
