/**
 * The date poll of server/src/routes/meets.ts: the host proposes date options in the draft
 * phase, members state their availability for options in the voting phase, and the host picks
 * the final date from an option.
 */
module MeetDates {
  import opened Wrappers
  import opened Strings
  import opened Seqs
  import opened Store
  import opened Meets

  /** Adding a date option appends one option under a fresh id. */
  method AddDateOption(db: Db, actor: Actor, meetId: Id, dateTime: Option<string>) returns (r: Result<Id, MeetError>)
    requires db.Valid()
    modifies db`dateOptions, db`nextId
    ensures db.Valid()
    ensures var check := DraftEditCheck(Lookup(old(db.meets), meetId), actor);
      && (check.Fail? ==> r == Err(check.error) && db.dateOptions == old(db.dateOptions) && db.nextId == old(db.nextId))
      && (check.Pass? && !IsTruthy(dateTime) ==>
            r == Err(DateTimeRequired) && db.dateOptions == old(db.dateOptions) && db.nextId == old(db.nextId))
      && (check.Pass? && IsTruthy(dateTime) ==>
            (&& r.Ok? && !HasKey(old(db.dateOptions), DateOptionId, r.value)
             && db.dateOptions == old(db.dateOptions) + [DateOption(r.value, meetId, dateTime.value)]))
  {
    var check := DraftEditCheck(Lookup(db.meets, meetId), actor);
    if check.Fail? {
      return Err(check.error);
    }
    if !IsTruthy(dateTime) {
      return Err(DateTimeRequired);
    }
    var id := db.FreshId();
    ghost var before := db.dateOptions;
    AppendDistinct(db.dateOptions, DateOption(id, meetId, dateTime.value), DateOptionId);
    db.dateOptions := db.dateOptions + [DateOption(id, meetId, dateTime.value)];
    forall k | 0 <= k < |db.dateVotes| ensures HasKey(db.dateOptions, DateOptionId, db.dateVotes[k].dateOptionId) {
      var j :| 0 <= j < |before| && before[j].id == db.dateVotes[k].dateOptionId;
      assert db.dateOptions[j] == before[j];
    }
    r := Ok(id);
  }

  predicate IsNotOption(o: DateOption, optionId: Id) { o.id != optionId }
  predicate IsNotVoteOn(v: DateVote, optionId: Id) { v.dateOptionId != optionId }

  /**
   * Removing a date option deletes the option with that id whatever meet it belongs to, and
   * the cascade deletes the availability votes on it.
   */
  method RemoveDateOption(db: Db, actor: Actor, meetId: Id, optionId: Id) returns (r: Outcome<MeetError>)
    requires db.Valid()
    modifies db`dateOptions, db`dateVotes
    ensures db.Valid()
    ensures r == DraftEditCheck(Lookup(old(db.meets), meetId), actor)
    ensures r.Fail? ==> db.dateOptions == old(db.dateOptions) && db.dateVotes == old(db.dateVotes)
    ensures r.Pass? ==> db.dateOptions == Filter(old(db.dateOptions), o => IsNotOption(o, optionId))
    ensures r.Pass? ==> db.dateVotes == Filter(old(db.dateVotes), v => IsNotVoteOn(v, optionId))
  {
    r := DraftEditCheck(Lookup(db.meets, meetId), actor);
    if r.Fail? {
      return;
    }
    OptionRemovalKeepsReferences(db.dateOptions, db.dateVotes, optionId, db.nextId);
    db.dateOptions := Filter(db.dateOptions, o => IsNotOption(o, optionId));
    db.dateVotes := Filter(db.dateVotes, v => IsNotVoteOn(v, optionId));
  }

  /** The option removal and its cascade keep the ids, the unique keys and the option references intact. */
  lemma OptionRemovalKeepsReferences(options: seq<DateOption>, votes: seq<DateVote>, optionId: Id, nextId: nat)
    requires forall k :: 0 <= k < |options| ==> options[k].id < nextId
    requires KeysDistinct(options, DateOptionId) && KeysDistinct(votes, DateVoteKey)
    requires forall k :: 0 <= k < |votes| ==> HasKey(options, DateOptionId, votes[k].dateOptionId)
    ensures var os := Filter(options, o => IsNotOption(o, optionId));
      var vs := Filter(votes, v => IsNotVoteOn(v, optionId));
      && (forall k :: 0 <= k < |os| ==> os[k].id < nextId)
      && KeysDistinct(os, DateOptionId) && KeysDistinct(vs, DateVoteKey)
      && (forall k :: 0 <= k < |vs| ==> HasKey(os, DateOptionId, vs[k].dateOptionId))
  {
    var os := Filter(options, o => IsNotOption(o, optionId));
    var vs := Filter(votes, v => IsNotVoteOn(v, optionId));
    FilterDistinct(options, o => IsNotOption(o, optionId), DateOptionId);
    FilterDistinct(votes, v => IsNotVoteOn(v, optionId), DateVoteKey);
    forall k | 0 <= k < |os| ensures os[k].id < nextId {
      assert os[k] in options;
    }
    forall k | 0 <= k < |vs| ensures HasKey(os, DateOptionId, vs[k].dateOptionId) {
      var v := vs[k];
      assert v in votes;
      var i :| 0 <= i < |votes| && votes[i] == v;
      var j :| 0 <= j < |options| && options[j].id == v.dateOptionId;
      assert options[j] in os;
      var n :| 0 <= n < |os| && os[n] == options[j];
    }
  }

  /** One entry of the submitted availability `votes`; the availability is stored unchecked. */
  datatype DateVoteInput = DateVoteInput(dateOptionId: Id, availability: string)

  /** The guards of the date-votes handler; options are not checked against the meet. */
  function DateVoteCheck(meet: Option<Meet>, input: Option<seq<DateVoteInput>>): (r: Outcome<MeetError>)
    ensures r == Pass <==> meet.Some? && meet.value.phase == Voting && input.Some?
  {
    if meet.None? then Fail(MeetNotFound)
    else if meet.value.phase != Voting then Fail(WrongPhase)
    else if input.None? then Fail(VotesRequired)
    else Pass
  }

  /** The table with the availability of the rows with the given key set to `a`. */
  function SetAvailability(table: seq<DateVote>, key: (Id, Id), a: string): (r: seq<DateVote>)
    ensures |r| == |table|
    ensures forall k :: 0 <= k < |r| ==> DateVoteKey(r[k]) == DateVoteKey(table[k])
    ensures forall k :: 0 <= k < |r| ==>
      r[k] == if DateVoteKey(table[k]) == key then table[k].(availability := a) else table[k]
  {
    seq(|table|, k requires 0 <= k < |table| =>
      if DateVoteKey(table[k]) == key then table[k].(availability := a) else table[k])
  }

  /**
   * One entry of the loop: the member's row for the option is updated when it exists, and
   * otherwise inserted, which fails on the foreign key when there is no such option.
   */
  function Upsert(table: seq<DateVote>, options: seq<DateOption>, userId: Id, v: DateVoteInput)
    : (r: Result<seq<DateVote>, MeetError>)
    ensures r.Err? <==> !HasKey(table, DateVoteKey, (v.dateOptionId, userId)) && !HasKey(options, DateOptionId, v.dateOptionId)
    ensures r.Err? ==> r.error == ForeignKeyViolation
    ensures r.Ok? && KeysDistinct(table, DateVoteKey) ==> KeysDistinct(r.value, DateVoteKey)
    ensures r.Ok? && (forall k :: 0 <= k < |table| ==> HasKey(options, DateOptionId, table[k].dateOptionId)) ==>
      forall k :: 0 <= k < |r.value| ==> HasKey(options, DateOptionId, r.value[k].dateOptionId)
  {
    var key := (v.dateOptionId, userId);
    if HasKey(table, DateVoteKey, key) then
      var t := SetAvailability(table, key, v.availability);
      assert forall k :: 0 <= k < |t| ==> t[k].dateOptionId == table[k].dateOptionId;
      Ok(t)
    else if !HasKey(options, DateOptionId, v.dateOptionId) then Err(ForeignKeyViolation)
    else
      var row := DateVote(v.dateOptionId, userId, v.availability);
      var t := table + [row];
      assert KeysDistinct(table, DateVoteKey) ==> KeysDistinct(t, DateVoteKey) by {
        if KeysDistinct(table, DateVoteKey) {
          AppendDistinct(table, row, DateVoteKey);
        }
      }
      assert forall k :: 0 <= k < |table| ==> t[k] == table[k];
      Ok(t)
  }

  /** The whole loop: the table after the entries that went through, and whether all of them did. */
  function UpsertAll(table: seq<DateVote>, options: seq<DateOption>, userId: Id, input: seq<DateVoteInput>)
    : (r: (seq<DateVote>, bool))
    decreases |input|
  {
    if input == [] then (table, true)
    else
      match Upsert(table, options, userId, input[0])
      case Err(_) => (table, false)
      case Ok(t) => UpsertAll(t, options, userId, input[1..])
  }

  /** Submitting availability; an entry for a missing option stops the loop, keeping the earlier entries. */
  method SubmitDateVotes(db: Db, actor: Actor, meetId: Id, input: Option<seq<DateVoteInput>>) returns (r: Outcome<MeetError>)
    requires db.Valid()
    modifies db`dateVotes
    ensures db.Valid()
    ensures var check := DateVoteCheck(Lookup(old(db.meets), meetId), input);
      && (check.Fail? ==> r == check && db.dateVotes == old(db.dateVotes))
      && (check.Pass? ==>
            var result := UpsertAll(old(db.dateVotes), db.dateOptions, actor.id, input.value);
            && db.dateVotes == result.0
            && (r == Pass <==> result.1)
            && (r.Fail? ==> r == Fail(ForeignKeyViolation)))
  {
    r := DateVoteCheck(Lookup(db.meets, meetId), input);
    if r.Fail? {
      return;
    }
    var entries := input.value;
    var i := 0;
    while i < |entries|
      invariant 0 <= i <= |entries|
      invariant UpsertAll(db.dateVotes, db.dateOptions, actor.id, entries[i..])
             == UpsertAll(old(db.dateVotes), db.dateOptions, actor.id, entries)
      invariant KeysDistinct(db.dateVotes, DateVoteKey)
      invariant forall k :: 0 <= k < |db.dateVotes| ==> HasKey(db.dateOptions, DateOptionId, db.dateVotes[k].dateOptionId)
    {
      assert entries[i..][0] == entries[i] && entries[i..][1..] == entries[i + 1..];
      var step := Upsert(db.dateVotes, db.dateOptions, actor.id, entries[i]);
      if step.Err? {
        return Fail(ForeignKeyViolation);
      }
      db.dateVotes := step.value;
      i := i + 1;
    }
  }

  /** The availability recorded under a key, if any row has it. */
  function AvailabilityOf(table: seq<DateVote>, key: (Id, Id)): (r: Option<string>)
    ensures r.Some? <==> HasKey(table, DateVoteKey, key)
    ensures r.Some? ==> exists k :: 0 <= k < |table| && DateVoteKey(table[k]) == key && table[k].availability == r.value
  {
    if table == [] then None
    else if DateVoteKey(table[0]) == key then Some(table[0].availability)
    else
      var r := AvailabilityOf(table[1..], key);
      assert forall k :: 1 <= k < |table| ==> table[k] == table[1..][k - 1];
      r
  }

  /** The availability the entries leave for an option, starting from `current`: the last entry for it wins. */
  function LastAvailability(input: seq<DateVoteInput>, optionId: Id, current: Option<string>): Option<string>
    decreases |input|
  {
    if input == [] then current
    else
      var next := if input[0].dateOptionId == optionId then Some(input[0].availability) else current;
      LastAvailability(input[1..], optionId, next)
  }

  /** With distinct keys, the recorded availability is the one of the only row with that key. */
  lemma AvailabilityOfDistinct(table: seq<DateVote>, k: nat)
    requires KeysDistinct(table, DateVoteKey) && k < |table|
    ensures AvailabilityOf(table, DateVoteKey(table[k])) == Some(table[k].availability)
  {
    var r := AvailabilityOf(table, DateVoteKey(table[k]));
    var j :| 0 <= j < |table| && DateVoteKey(table[j]) == DateVoteKey(table[k]) && table[j].availability == r.value;
  }

  /** One accepted entry records its availability for its key and leaves every other key alone. */
  lemma UpsertRecords(table: seq<DateVote>, options: seq<DateOption>, userId: Id, v: DateVoteInput, key: (Id, Id))
    requires KeysDistinct(table, DateVoteKey)
    requires Upsert(table, options, userId, v).Ok?
    ensures var t := Upsert(table, options, userId, v).value;
      AvailabilityOf(t, key) == if key == (v.dateOptionId, userId) then Some(v.availability) else AvailabilityOf(table, key)
  {
    var t := Upsert(table, options, userId, v).value;
    var own := (v.dateOptionId, userId);
    assert KeysDistinct(t, DateVoteKey);
    assert HasKey(t, DateVoteKey, own) by {
      if HasKey(table, DateVoteKey, own) {
        var k :| 0 <= k < |table| && DateVoteKey(table[k]) == own;
        assert DateVoteKey(t[k]) == own;
      } else {
        assert t[|table|] == DateVote(v.dateOptionId, userId, v.availability);
      }
    }
    assert forall k :: 0 <= k < |table| ==> DateVoteKey(t[k]) == DateVoteKey(table[k]);
    if HasKey(t, DateVoteKey, key) {
      var k :| 0 <= k < |t| && DateVoteKey(t[k]) == key;
      AvailabilityOfDistinct(t, k);
      if k < |table| {
        if key != own {
          assert t[k] == table[k];
        }
        AvailabilityOfDistinct(table, k);
      } else {
        assert !HasKey(table, DateVoteKey, own);
        assert t[k] == DateVote(v.dateOptionId, userId, v.availability);
      }
    } else {
      assert key != own;
    }
  }

  /**
   * After a submission that went through, each of the member's options carries the availability
   * of the last entry for it (or what it had), and the rows of the other members are as they were.
   */
  lemma {:induction false} LastEntryWins(table: seq<DateVote>, options: seq<DateOption>, userId: Id,
                                         input: seq<DateVoteInput>, key: (Id, Id))
    requires KeysDistinct(table, DateVoteKey)
    requires UpsertAll(table, options, userId, input).1
    ensures AvailabilityOf(UpsertAll(table, options, userId, input).0, key) ==
            if key.1 == userId then LastAvailability(input, key.0, AvailabilityOf(table, key)) else AvailabilityOf(table, key)
    decreases |input|
  {
    if input != [] {
      var t := Upsert(table, options, userId, input[0]).value;
      UpsertRecords(table, options, userId, input[0], key);
      LastEntryWins(t, options, userId, input[1..], key);
    }
  }

  /**
   * When every existing row points at an option, a submission goes through exactly when each
   * entry names an existing option (of any meet).
   */
  lemma {:induction false} UpsertAllSucceedsIff(table: seq<DateVote>, options: seq<DateOption>, userId: Id,
                                                input: seq<DateVoteInput>)
    requires forall k :: 0 <= k < |table| ==> HasKey(options, DateOptionId, table[k].dateOptionId)
    ensures UpsertAll(table, options, userId, input).1 <==>
            forall j :: 0 <= j < |input| ==> HasKey(options, DateOptionId, input[j].dateOptionId)
    decreases |input|
  {
    if input != [] {
      var v := input[0];
      if HasKey(table, DateVoteKey, (v.dateOptionId, userId)) {
        var k :| 0 <= k < |table| && DateVoteKey(table[k]) == (v.dateOptionId, userId);
        assert HasKey(options, DateOptionId, table[k].dateOptionId);
      }
      var step := Upsert(table, options, userId, v);
      if step.Ok? {
        UpsertAllSucceedsIff(step.value, options, userId, input[1..]);
        assert forall j :: 1 <= j < |input| ==> input[j] == input[1..][j - 1];
      }
    }
  }

  /** The guards of the select-date handler: no phase check, and the option may belong to any meet. */
  function SelectDateCheck(meet: Option<Meet>, actor: Actor, optionId: Option<Id>, options: seq<DateOption>)
    : (r: Outcome<MeetError>)
    ensures r == Pass <==>
      meet.Some? && IsHostOrAdmin(meet.value, actor) && optionId.Some? && HasKey(options, DateOptionId, optionId.value)
  {
    if meet.None? then Fail(MeetNotFound)
    else if !IsHostOrAdmin(meet.value, actor) then Fail(Forbidden)
    else if optionId.None? then Fail(DateOptionIdRequired)
    else if !HasKey(options, DateOptionId, optionId.value) then Fail(DateOptionNotFound)
    else Pass
  }

  /** The option with the given id. */
  function FindOption(options: seq<DateOption>, id: Id): (r: Option<DateOption>)
    ensures r.Some? <==> HasKey(options, DateOptionId, id)
    ensures r.Some? ==> r.value in options && r.value.id == id
  {
    if options == [] then None
    else if options[0].id == id then Some(options[0])
    else
      var r := FindOption(options[1..], id);
      assert forall k :: 1 <= k < |options| ==> options[k] == options[1..][k - 1];
      r
  }

  /** Selecting the date copies the option's date and time into the meet and answers with it. */
  method SelectDate(db: Db, actor: Actor, meetId: Id, optionId: Option<Id>) returns (r: Result<string, MeetError>)
    requires db.Valid()
    modifies db`meets
    ensures db.Valid()
    ensures var check := SelectDateCheck(Lookup(old(db.meets), meetId), actor, optionId, db.dateOptions);
      && (check.Fail? ==> r == Err(check.error) && db.meets == old(db.meets))
      && (check.Pass? ==>
            var option := FindOption(db.dateOptions, optionId.value).value;
            && r == Ok(option.dateTime)
            && db.meets == old(db.meets)[meetId := old(db.meets)[meetId].(selectedDate := Some(option.dateTime))])
  {
    var check := SelectDateCheck(Lookup(db.meets, meetId), actor, optionId, db.dateOptions);
    if check.Fail? {
      return Err(check.error);
    }
    var option := FindOption(db.dateOptions, optionId.value).value;
    db.meets := db.meets[meetId := db.meets[meetId].(selectedDate := Some(option.dateTime))];
    r := Ok(option.dateTime);
  }
}
