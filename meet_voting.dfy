/**
 * Point voting on the candidates of a meet (the votes route of server/src/routes/meets.ts):
 * a member distributes exactly `VotingPointsTotal` points over candidates of the meet, and a
 * new submission replaces the member's earlier rows for that meet.
 */
module MeetVoting {
  import opened Wrappers
  import opened Seqs
  import opened Store
  import opened Meets

  /** VOTING_POINTS_TOTAL of shared/src/index.ts. */
  const VotingPointsTotal := 15

  /** One entry of the submitted `votes` array. */
  datatype VoteInput = VoteInput(candidateId: Id, points: int)

  /** The sum of the submitted points, negative entries included. */
  function PointsSum(input: seq<VoteInput>): int {
    if input == [] then 0 else PointsSum(input[..|input| - 1]) + input[|input| - 1].points
  }

  /** The first submitted candidate that is not a candidate of the meet. */
  function FirstForeign(cands: seq<Candidate>, meetId: Id, input: seq<VoteInput>): (r: Option<Id>)
    ensures r.None? <==> forall j :: 0 <= j < |input| ==> IsCandidateOf(cands, input[j].candidateId, meetId)
    ensures r.Some? ==> exists j :: 0 <= j < |input| && input[j].candidateId == r.value &&
                                    !IsCandidateOf(cands, r.value, meetId) &&
                                    forall i :: 0 <= i < j ==> IsCandidateOf(cands, input[i].candidateId, meetId)
  {
    if input == [] then None
    else if !IsCandidateOf(cands, input[0].candidateId, meetId) then Some(input[0].candidateId)
    else
      var r := FirstForeign(cands, meetId, input[1..]);
      assert forall j :: 1 <= j < |input| ==> input[j] == input[1..][j - 1];
      r
  }

  /** The guards of the votes handler, in the handler's order. */
  function VoteCheck(meet: Option<Meet>, cands: seq<Candidate>, meetId: Id, input: Option<seq<VoteInput>>)
    : (r: Outcome<MeetError>)
    ensures r == Pass <==>
      && meet.Some? && meet.value.phase == Voting && input.Some?
      && PointsSum(input.value) == VotingPointsTotal
      && forall j :: 0 <= j < |input.value| ==> IsCandidateOf(cands, input.value[j].candidateId, meetId)
    ensures meet.Some? && meet.value.phase == Voting && input.Some? && PointsSum(input.value) != VotingPointsTotal
      ==> r == Fail(WrongPointsTotal(PointsSum(input.value)))
  {
    if meet.None? then Fail(MeetNotFound)
    else if meet.value.phase != Voting then Fail(WrongPhase)
    else if input.None? then Fail(VotesRequired)
    else if PointsSum(input.value) != VotingPointsTotal then Fail(WrongPointsTotal(PointsSum(input.value)))
    else
      var foreign := FirstForeign(cands, meetId, input.value);
      if foreign.Some? then Fail(CandidateNotInMeet(foreign.value)) else Pass
  }

  /** The rows the handler inserts: one per entry with positive points, in submission order. */
  function NewRows(meetId: Id, userId: Id, input: seq<VoteInput>): (r: seq<CandidateVote>)
    ensures |r| <= |input|
    ensures forall k :: 0 <= k < |r| ==> r[k].meetId == meetId && r[k].userId == userId && r[k].points > 0
  {
    if input == [] then []
    else
      var last := input[|input| - 1];
      var tail := if last.points > 0 then [CandidateVote(meetId, last.candidateId, userId, last.points)] else [];
      NewRows(meetId, userId, input[..|input| - 1]) + tail
  }

  lemma {:induction false} NewRowsAppend(meetId: Id, userId: Id, a: seq<VoteInput>, b: seq<VoteInput>)
    ensures NewRows(meetId, userId, a + b) == NewRows(meetId, userId, a) + NewRows(meetId, userId, b)
    decreases |b|
  {
    if b == [] {
      assert a + b == a;
    } else {
      assert (a + b)[..|a + b| - 1] == a + b[..|b| - 1];
      NewRowsAppend(meetId, userId, a, b[..|b| - 1]);
    }
  }

  /** Every inserted row is for a candidate the submission named. */
  lemma {:induction false} NewRowsInMeet(cands: seq<Candidate>, meetId: Id, userId: Id, input: seq<VoteInput>)
    requires forall j :: 0 <= j < |input| ==> IsCandidateOf(cands, input[j].candidateId, meetId)
    ensures forall k :: 0 <= k < |NewRows(meetId, userId, input)| ==>
              IsCandidateOf(cands, NewRows(meetId, userId, input)[k].candidateId, meetId)
  {
    if input != [] {
      var init := input[..|input| - 1];
      var last := input[|input| - 1];
      NewRowsInMeet(cands, meetId, userId, init);
      var pre := NewRows(meetId, userId, init);
      var rows := NewRows(meetId, userId, input);
      var tail := if last.points > 0 then [CandidateVote(meetId, last.candidateId, userId, last.points)] else [];
      assert rows == pre + tail;
      assert IsCandidateOf(cands, input[|input| - 1].candidateId, meetId);
      forall k | 0 <= k < |rows| ensures IsCandidateOf(cands, rows[k].candidateId, meetId) {
        if k < |pre| {
          assert rows[k] == pre[k];
        } else {
          assert rows[k] == tail[0];
        }
      }
    }
  }

  /** The rows of one member in one meet, and all the others. */
  function Mine(meetId: Id, userId: Id): CandidateVote -> bool {
    (v: CandidateVote) => v.meetId == meetId && v.userId == userId
  }

  function Others(meetId: Id, userId: Id): CandidateVote -> bool {
    (v: CandidateVote) => !(v.meetId == meetId && v.userId == userId)
  }

  /**
   * The vote table after a submission that passed the guards, and how many of the new rows
   * went in: the member's rows of the meet are deleted, then the new rows are inserted one by
   * one until one hits the unique index on (candidate, user).
   */
  function ReplaceVotes(votes: seq<CandidateVote>, meetId: Id, userId: Id, input: seq<VoteInput>)
    : (seq<CandidateVote>, nat)
  {
    InsertAll(Filter(votes, Others(meetId, userId)), NewRows(meetId, userId, input), VoteKey)
  }

  /**
   * Submitting votes: a rejected submission changes nothing; an accepted one replaces the
   * member's rows, and fails part-way, keeping the rows before, when a candidate appears twice.
   */
  method SubmitVotes(db: Db, actor: Actor, meetId: Id, input: Option<seq<VoteInput>>) returns (r: Outcome<MeetError>)
    requires db.Valid()
    modifies db`votes
    ensures db.Valid()
    ensures var check := VoteCheck(Lookup(old(db.meets), meetId), old(db.candidates), meetId, input);
      && (check.Fail? ==> r == check && db.votes == old(db.votes))
      && (check.Pass? ==>
            var replaced := ReplaceVotes(old(db.votes), meetId, actor.id, input.value);
            && db.votes == replaced.0
            && (r == Pass <==> replaced.1 == |NewRows(meetId, actor.id, input.value)|)
            && (r.Fail? ==> r == Fail(UniqueViolation)))
  {
    r := VoteCheck(Lookup(db.meets, meetId), db.candidates, meetId, input);
    if r.Fail? {
      return;
    }
    FilterDistinct(db.votes, Others(meetId, actor.id), VoteKey);
    ReplacementKeepsReferences(db.candidates, db.votes, meetId, actor.id, input.value);
    var kept := Filter(db.votes, Others(meetId, actor.id));
    var inserted;
    db.votes, inserted := InsertVotes(kept, meetId, actor.id, input.value);
    if !inserted {
      r := Fail(UniqueViolation);
    }
  }

  /**
   * The insertion loop of the handler: one row per entry with positive points, stopping at the
   * first row whose (candidate, user) key is taken.
   */
  method InsertVotes(table: seq<CandidateVote>, meetId: Id, userId: Id, entries: seq<VoteInput>)
    returns (t: seq<CandidateVote>, inserted: bool)
    requires KeysDistinct(table, VoteKey)
    ensures var r := InsertAll(table, NewRows(meetId, userId, entries), VoteKey);
      t == r.0 && (inserted <==> r.1 == |NewRows(meetId, userId, entries)|)
  {
    t := table;
    var i := 0;
    while i < |entries|
      invariant 0 <= i <= |entries|
      invariant t == table + NewRows(meetId, userId, entries[..i])
      invariant KeysDistinct(t, VoteKey)
    {
      var v := entries[i];
      assert entries[..i + 1][..i] == entries[..i];
      if v.points > 0 {
        var row := CandidateVote(meetId, v.candidateId, userId, v.points);
        if HasKey(t, VoteKey, VoteKey(row)) {
          FailedInsertion(table, meetId, userId, entries, i);
          return t, false;
        }
        AppendDistinct(t, row, VoteKey);
        t := t + [row];
      }
      i := i + 1;
    }
    assert entries[..i] == entries;
    var rows := NewRows(meetId, userId, entries);
    assert rows[..|rows|] == rows;
    inserted := true;
  }

  /** Every row of the new vote table is for a candidate of the row's meet. */
  lemma ReplacementKeepsReferences(cands: seq<Candidate>, votes: seq<CandidateVote>, meetId: Id, userId: Id,
                                   input: seq<VoteInput>)
    requires forall k :: 0 <= k < |votes| ==> IsCandidateOf(cands, votes[k].candidateId, votes[k].meetId)
    requires forall j :: 0 <= j < |input| ==> IsCandidateOf(cands, input[j].candidateId, meetId)
    ensures var t := ReplaceVotes(votes, meetId, userId, input).0;
      forall k :: 0 <= k < |t| ==> IsCandidateOf(cands, t[k].candidateId, t[k].meetId)
  {
    var kept := Filter(votes, Others(meetId, userId));
    var rows := NewRows(meetId, userId, input);
    var r := ReplaceVotes(votes, meetId, userId, input);
    assert r.0 == kept + rows[..r.1];
    NewRowsInMeet(cands, meetId, userId, input);
    forall k | 0 <= k < |r.0| ensures IsCandidateOf(cands, r.0[k].candidateId, r.0[k].meetId) {
      if k < |kept| {
        assert r.0[k] == kept[k] && kept[k] in votes;
        var n :| 0 <= n < |votes| && votes[n] == kept[k];
        assert IsCandidateOf(cands, votes[n].candidateId, votes[n].meetId);
      } else {
        assert r.0[k] == rows[..r.1][k - |kept|] == rows[k - |kept|];
        assert IsCandidateOf(cands, rows[k - |kept|].candidateId, meetId);
        assert rows[k - |kept|].meetId == meetId;
      }
    }
  }

  /** Where the insertion loop stops at entry `i`, the table is the one `ReplaceVotes` describes. */
  lemma FailedInsertion(kept: seq<CandidateVote>, meetId: Id, userId: Id, entries: seq<VoteInput>, i: nat)
    requires i < |entries| && entries[i].points > 0
    requires KeysDistinct(kept + NewRows(meetId, userId, entries[..i]), VoteKey)
    requires HasKey(kept + NewRows(meetId, userId, entries[..i]), VoteKey, (entries[i].candidateId, userId))
    ensures var r := InsertAll(kept, NewRows(meetId, userId, entries), VoteKey);
      r.0 == kept + NewRows(meetId, userId, entries[..i]) && r.1 < |NewRows(meetId, userId, entries)|
  {
    var pre := NewRows(meetId, userId, entries[..i]);
    var rest := NewRows(meetId, userId, entries[i..]);
    assert entries[..i] + entries[i..] == entries;
    NewRowsAppend(meetId, userId, entries[..i], entries[i..]);
    assert entries[i..] == [entries[i]] + entries[i + 1..];
    NewRowsAppend(meetId, userId, [entries[i]], entries[i + 1..]);
    assert [entries[i]][..0] == [];
    assert rest[0] == CandidateVote(meetId, entries[i].candidateId, userId, entries[i].points);
    InsertAllAppend(kept, pre, rest, VoteKey);
  }

  /**
   * A fully inserted submission leaves exactly the new rows as the member's rows of the meet,
   * and every other row as it was.
   */
  lemma ReplacementIsExact(votes: seq<CandidateVote>, meetId: Id, userId: Id, input: seq<VoteInput>)
    requires ReplaceVotes(votes, meetId, userId, input).1 == |NewRows(meetId, userId, input)|
    ensures var t := ReplaceVotes(votes, meetId, userId, input).0;
      && Filter(t, Mine(meetId, userId)) == NewRows(meetId, userId, input)
      && Filter(t, Others(meetId, userId)) == Filter(votes, Others(meetId, userId))
  {
    var kept := Filter(votes, Others(meetId, userId));
    var rows := NewRows(meetId, userId, input);
    assert ReplaceVotes(votes, meetId, userId, input).0 == kept + rows;
    FilterAppend(kept, rows, Mine(meetId, userId));
    FilterAppend(kept, rows, Others(meetId, userId));
    FilterNone(kept, Mine(meetId, userId));
    FilterAll(rows, Mine(meetId, userId));
    FilterAll(kept, Others(meetId, userId));
    FilterNone(rows, Others(meetId, userId));
  }

  /** Submitting the same votes again leaves the table as it is. */
  lemma ReplacementIdempotent(votes: seq<CandidateVote>, meetId: Id, userId: Id, input: seq<VoteInput>)
    requires ReplaceVotes(votes, meetId, userId, input).1 == |NewRows(meetId, userId, input)|
    ensures var t := ReplaceVotes(votes, meetId, userId, input).0;
      ReplaceVotes(t, meetId, userId, input) == ReplaceVotes(votes, meetId, userId, input)
  {
    var kept := Filter(votes, Others(meetId, userId));
    var rows := NewRows(meetId, userId, input);
    var r := InsertAll(kept, rows, VoteKey);
    assert r == ReplaceVotes(votes, meetId, userId, input);
    assert rows[..r.1] == rows;
    var t := kept + rows;
    assert r.0 == t;
    FilterAppend(kept, rows, Others(meetId, userId));
    FilterAll(kept, Others(meetId, userId));
    FilterNone(rows, Others(meetId, userId));
    assert Filter(t, Others(meetId, userId)) == kept;
  }

  function CandidateOfVote(v: CandidateVote): Id { v.candidateId }

  /** The new rows all belong to one member, so their keys differ exactly when their candidates do. */
  lemma RowsDistinctByCandidate(kept: seq<CandidateVote>, rows: seq<CandidateVote>, userId: Id)
    requires forall k :: 0 <= k < |rows| ==> rows[k].userId == userId
    requires KeysDistinct(kept + rows, VoteKey)
    ensures KeysDistinct(rows, CandidateOfVote)
  {
    var t := kept + rows;
    forall i, j | 0 <= i < j < |rows| ensures rows[i].candidateId != rows[j].candidateId {
      assert t[|kept| + i] == rows[i] && t[|kept| + j] == rows[j];
    }
  }

  /**
   * When the rows of the member in the meet were deleted, a kept row cannot share a key with a
   * new row: that row's candidate would be a candidate of this meet, so the kept row would be
   * one of the deleted ones.
   */
  lemma KeptAndNewDisjoint(cands: seq<Candidate>, kept: seq<CandidateVote>, rows: seq<CandidateVote>,
                           meetId: Id, userId: Id)
    requires KeysDistinct(cands, CandidateId) && KeysDistinct(kept, VoteKey)
    requires forall k :: 0 <= k < |kept| ==> IsCandidateOf(cands, kept[k].candidateId, kept[k].meetId)
    requires forall k :: 0 <= k < |kept| ==> !(kept[k].meetId == meetId && kept[k].userId == userId)
    requires forall k :: 0 <= k < |rows| ==> rows[k].userId == userId && IsCandidateOf(cands, rows[k].candidateId, meetId)
    requires KeysDistinct(rows, CandidateOfVote)
    ensures KeysDistinct(kept + rows, VoteKey)
  {
    var t := kept + rows;
    forall i, j | 0 <= i < j < |t| ensures VoteKey(t[i]) != VoteKey(t[j]) {
      if j < |kept| {
        assert t[i] == kept[i] && t[j] == kept[j];
      } else if i >= |kept| {
        assert t[i] == rows[i - |kept|] && t[j] == rows[j - |kept|];
      } else {
        var v, w := kept[i], rows[j - |kept|];
        assert t[i] == v && t[j] == w;
      }
    }
  }

  /**
   * An accepted submission goes in completely exactly when no candidate gets positive points
   * twice.
   */
  lemma InsertedIffDistinct(cands: seq<Candidate>, votes: seq<CandidateVote>, meetId: Id, userId: Id, input: seq<VoteInput>)
    requires KeysDistinct(cands, CandidateId) && KeysDistinct(votes, VoteKey)
    requires forall k :: 0 <= k < |votes| ==> IsCandidateOf(cands, votes[k].candidateId, votes[k].meetId)
    requires forall j :: 0 <= j < |input| ==> IsCandidateOf(cands, input[j].candidateId, meetId)
    ensures ReplaceVotes(votes, meetId, userId, input).1 == |NewRows(meetId, userId, input)| <==>
            KeysDistinct(NewRows(meetId, userId, input), CandidateOfVote)
  {
    var kept := Filter(votes, Others(meetId, userId));
    var rows := NewRows(meetId, userId, input);
    FilterDistinct(votes, Others(meetId, userId), VoteKey);
    NewRowsInMeet(cands, meetId, userId, input);
    if KeysDistinct(kept + rows, VoteKey) {
      RowsDistinctByCandidate(kept, rows, userId);
    }
    if KeysDistinct(rows, CandidateOfVote) {
      forall k | 0 <= k < |kept|
        ensures IsCandidateOf(cands, kept[k].candidateId, kept[k].meetId)
        ensures !(kept[k].meetId == meetId && kept[k].userId == userId)
      {
        assert kept[k] in votes;
        assert Others(meetId, userId)(kept[k]);
      }
      assert forall k :: 0 <= k < |rows| ==> rows[k].userId == userId && IsCandidateOf(cands, rows[k].candidateId, meetId);
      KeptAndNewDisjoint(cands, kept, rows, meetId, userId);
    }
  }

  /** The sum of the points of the rows. */
  function RowPoints(rows: seq<CandidateVote>): int {
    if rows == [] then 0 else RowPoints(rows[..|rows| - 1]) + rows[|rows| - 1].points
  }

  /** Without negative entries, the inserted rows carry exactly the submitted points. */
  lemma {:induction false} StoredPoints(meetId: Id, userId: Id, input: seq<VoteInput>)
    requires forall j :: 0 <= j < |input| ==> input[j].points >= 0
    ensures RowPoints(NewRows(meetId, userId, input)) == PointsSum(input)
  {
    if input != [] {
      var init := input[..|input| - 1];
      StoredPoints(meetId, userId, init);
      var rows := NewRows(meetId, userId, input);
      var last := input[|input| - 1];
      if last.points > 0 {
        assert rows == NewRows(meetId, userId, init) + [CandidateVote(meetId, last.candidateId, userId, last.points)];
        assert rows[..|rows| - 1] == NewRows(meetId, userId, init);
      } else {
        assert rows == NewRows(meetId, userId, init) + [];
        assert rows == NewRows(meetId, userId, init);
      }
    }
  }

  /**
   * Negative entries pass the total check and are left out of the insert, so the stored
   * points of a submission can exceed the total.
   */
  lemma NegativePointsStoreMore()
    ensures var input := [VoteInput(1, 20), VoteInput(2, -5)];
      && PointsSum(input) == VotingPointsTotal
      && RowPoints(NewRows(7, 3, input)) == 20
  {
    var input := [VoteInput(1, 20), VoteInput(2, -5)];
    assert input[..1] == [VoteInput(1, 20)] && [VoteInput(1, 20)][..0] == [];
  }

  /** Points that reach the total include a positive entry. */
  lemma {:induction false} TotalNeedsPositive(meetId: Id, userId: Id, input: seq<VoteInput>)
    requires PointsSum(input) > 0
    ensures NewRows(meetId, userId, input) != []
  {
    var last := input[|input| - 1];
    if last.points <= 0 {
      TotalNeedsPositive(meetId, userId, input[..|input| - 1]);
    }
  }

  /** After a fully inserted submission, the vote status shows the member as having voted. */
  lemma SubmittedShowsVoted(votes: seq<CandidateVote>, meetId: Id, userId: Id, input: seq<VoteInput>)
    requires PointsSum(input) == VotingPointsTotal
    requires ReplaceVotes(votes, meetId, userId, input).1 == |NewRows(meetId, userId, input)|
    ensures HasVoted(ReplaceVotes(votes, meetId, userId, input).0, meetId, userId)
  {
    var kept := Filter(votes, Others(meetId, userId));
    var rows := NewRows(meetId, userId, input);
    TotalNeedsPositive(meetId, userId, input);
    var t := ReplaceVotes(votes, meetId, userId, input).0;
    assert t == kept + rows;
    assert t[|kept|] == rows[0];
  }
}
