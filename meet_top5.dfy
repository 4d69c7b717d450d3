/**
 * The personal top 5 of server/src/routes/meets.ts: a member ranks up to five books that were
 * selected in reading or completed meets, and the aggregate ranking scores every ranked book
 * with 6 - rank points per entry.
 */
module MeetTop5 {
  import opened Wrappers
  import opened Seqs
  import opened Store
  import opened Meets

  const MaxEntries := 5

  /** One entry of the submitted `entries` array. */
  datatype Top5Input = Top5Input(bookId: Id, rank: int)

  /** The books a top 5 may name: the selected books of all completed and reading meets. */
  function EligibleBooks(meets: map<Id, Meet>): (r: set<Id>)
    ensures forall b :: b in r <==>
      exists id :: id in meets && (meets[id].phase == Completed || meets[id].phase == Reading) &&
                   meets[id].selectedBookId == Some(b)
  {
    set id | id in meets && (meets[id].phase == Completed || meets[id].phase == Reading) &&
             meets[id].selectedBookId.Some? :: meets[id].selectedBookId.value
  }

  /** Selected books exist, so eligible books exist. */
  lemma EligibleBooksExist(meets: map<Id, Meet>, books: map<Id, Book>)
    requires forall id :: id in meets && meets[id].selectedBookId.Some? ==> meets[id].selectedBookId.value in books
    ensures forall b :: b in EligibleBooks(meets) ==> b in books
  {
  }

  predicate IsRank(rank: int) { 1 <= rank <= MaxEntries }

  /** The first entry-level error, checking each entry's book before its rank. */
  function FirstEntryError(input: seq<Top5Input>, eligible: set<Id>): (r: Option<MeetError>)
    ensures r.None? <==> forall j :: 0 <= j < |input| ==> input[j].bookId in eligible && IsRank(input[j].rank)
    ensures r.Some? ==> r.value == BookNotEligible || r.value == RankOutOfRange
    ensures r == Some(RankOutOfRange) ==> exists j :: 0 <= j < |input| && input[j].bookId in eligible && !IsRank(input[j].rank)
    ensures input != [] && input[0].bookId !in eligible ==> r == Some(BookNotEligible)
  {
    if input == [] then None
    else if input[0].bookId !in eligible then Some(BookNotEligible)
    else if !IsRank(input[0].rank) then Some(RankOutOfRange)
    else
      var r := FirstEntryError(input[1..], eligible);
      assert forall j :: 1 <= j < |input| ==> input[j] == input[1..][j - 1];
      r
  }

  function Min(a: int, b: int): int { if a <= b then a else b }

  /** The guards of the top 5 handler, in the handler's order. */
  function Top5Check(meet: Option<Meet>, input: Option<seq<Top5Input>>, eligible: set<Id>): (r: Outcome<MeetError>)
    ensures r == Pass <==>
      && meet.Some? && (meet.value.phase == Reading || meet.value.phase == Completed) && input.Some?
      && (forall j :: 0 <= j < |input.value| ==> input.value[j].bookId in eligible && IsRank(input.value[j].rank))
      && |input.value| <= Min(MaxEntries, |eligible|)
    ensures r.Fail? && r.error.TooManyEntries? ==> r.error.limit == Min(MaxEntries, |eligible|)
  {
    if meet.None? then Fail(MeetNotFound)
    else if meet.value.phase != Reading && meet.value.phase != Completed then Fail(WrongPhase)
    else if input.None? then Fail(EntriesRequired)
    else
      var entryError := FirstEntryError(input.value, eligible);
      if entryError.Some? then Fail(entryError.value)
      else if |input.value| > Min(MaxEntries, |eligible|) then Fail(TooManyEntries(Min(MaxEntries, |eligible|)))
      else Pass
  }

  /** The rows the handler inserts, one per entry, in submission order. */
  function Rows(meetId: Id, userId: Id, input: seq<Top5Input>): (r: seq<Top5Entry>)
    ensures |r| == |input|
    ensures forall k :: 0 <= k < |r| ==> r[k] == Top5Entry(meetId, userId, input[k].bookId, input[k].rank)
  {
    if input == [] then []
    else [Top5Entry(meetId, userId, input[0].bookId, input[0].rank)] + Rows(meetId, userId, input[1..])
  }

  function Mine(meetId: Id, userId: Id): Top5Entry -> bool {
    (e: Top5Entry) => e.meetId == meetId && e.userId == userId
  }

  function Others(meetId: Id, userId: Id): Top5Entry -> bool {
    (e: Top5Entry) => !(e.meetId == meetId && e.userId == userId)
  }

  /**
   * The top 5 table after a submission that passed the guards, and how many rows went in: the
   * member's rows of the meet are deleted, then the entries are inserted until one hits the
   * unique index on (meet, user, rank).
   */
  function ReplaceTop5(table: seq<Top5Entry>, meetId: Id, userId: Id, input: seq<Top5Input>): (seq<Top5Entry>, nat) {
    InsertAll(Filter(table, Others(meetId, userId)), Rows(meetId, userId, input), Top5Key)
  }

  /** Submitting a top 5: a rejected one changes nothing; a repeated rank stops the insertion part-way. */
  method SubmitTop5(db: Db, actor: Actor, meetId: Id, input: Option<seq<Top5Input>>) returns (r: Outcome<MeetError>)
    requires db.Valid()
    modifies db`top5
    ensures db.Valid()
    ensures var check := Top5Check(Lookup(old(db.meets), meetId), input, EligibleBooks(db.meets));
      && (check.Fail? ==> r == check && db.top5 == old(db.top5))
      && (check.Pass? ==>
            var replaced := ReplaceTop5(old(db.top5), meetId, actor.id, input.value);
            && db.top5 == replaced.0
            && (r == Pass <==> replaced.1 == |input.value|)
            && (r.Fail? ==> r == Fail(UniqueViolation)))
  {
    r := Top5Check(Lookup(db.meets, meetId), input, EligibleBooks(db.meets));
    if r.Fail? {
      return;
    }
    EligibleBooksExist(db.meets, db.books);
    ReplacementKeepsBooks(db.top5, meetId, actor.id, input.value, db.books);
    FilterDistinct(db.top5, Others(meetId, actor.id), Top5Key);
    var kept := Filter(db.top5, Others(meetId, actor.id));
    var inserted;
    db.top5, inserted := InsertTop5(kept, meetId, actor.id, input.value);
    if !inserted {
      r := Fail(UniqueViolation);
    }
  }

  /** Every row of the new table names an existing book when the old rows and the entries do. */
  lemma ReplacementKeepsBooks(table: seq<Top5Entry>, meetId: Id, userId: Id, input: seq<Top5Input>, books: map<Id, Book>)
    requires forall k :: 0 <= k < |table| ==> table[k].bookId in books
    requires forall j :: 0 <= j < |input| ==> input[j].bookId in books
    ensures var t := ReplaceTop5(table, meetId, userId, input).0;
      forall k :: 0 <= k < |t| ==> t[k].bookId in books
  {
    var kept := Filter(table, Others(meetId, userId));
    var rows := Rows(meetId, userId, input);
    var r := ReplaceTop5(table, meetId, userId, input);
    assert r.0 == kept + rows[..r.1];
    forall k | 0 <= k < |r.0| ensures r.0[k].bookId in books {
      if k < |kept| {
        assert r.0[k] == kept[k] && kept[k] in table;
      } else {
        assert r.0[k] == rows[..r.1][k - |kept|] == rows[k - |kept|];
      }
    }
  }

  /** The insertion loop of the handler: one row per entry, stopping at the first taken key. */
  method InsertTop5(table: seq<Top5Entry>, meetId: Id, userId: Id, input: seq<Top5Input>)
    returns (t: seq<Top5Entry>, inserted: bool)
    requires KeysDistinct(table, Top5Key)
    ensures var r := InsertAll(table, Rows(meetId, userId, input), Top5Key);
      t == r.0 && (inserted <==> r.1 == |input|)
  {
    t := table;
    var i := 0;
    while i < |input|
      invariant 0 <= i <= |input|
      invariant KeysDistinct(t, Top5Key)
      invariant var r := InsertAll(t, Rows(meetId, userId, input[i..]), Top5Key);
        var whole := InsertAll(table, Rows(meetId, userId, input), Top5Key);
        r.0 == whole.0 && i + r.1 == whole.1
    {
      var row := Top5Entry(meetId, userId, input[i].bookId, input[i].rank);
      assert input[i..][0] == input[i] && input[i..][1..] == input[i + 1..];
      assert Rows(meetId, userId, input[i..]) == [row] + Rows(meetId, userId, input[i + 1..]);
      if HasKey(t, Top5Key, Top5Key(row)) {
        return t, false;
      }
      AppendDistinct(t, row, Top5Key);
      t := t + [row];
      i := i + 1;
    }
    assert input[i..] == [];
    inserted := true;
  }

  function RankOf(e: Top5Input): int { e.rank }

  /** A full insertion is exactly a top 5 without a repeated rank. */
  lemma InsertedIffRanksDistinct(table: seq<Top5Entry>, meetId: Id, userId: Id, input: seq<Top5Input>)
    requires KeysDistinct(table, Top5Key)
    ensures ReplaceTop5(table, meetId, userId, input).1 == |input| <==> KeysDistinct(input, RankOf)
  {
    var kept := Filter(table, Others(meetId, userId));
    var rows := Rows(meetId, userId, input);
    var t := kept + rows;
    FilterDistinct(table, Others(meetId, userId), Top5Key);
    if KeysDistinct(t, Top5Key) {
      forall i, j | 0 <= i < j < |input| ensures input[i].rank != input[j].rank {
        assert t[|kept| + i] == rows[i] && t[|kept| + j] == rows[j];
      }
    }
    if KeysDistinct(input, RankOf) {
      forall i, j | 0 <= i < j < |t| ensures Top5Key(t[i]) != Top5Key(t[j]) {
        if j < |kept| {
          assert t[i] == kept[i] && t[j] == kept[j];
        } else if i >= |kept| {
          assert t[i] == rows[i - |kept|] && t[j] == rows[j - |kept|];
        } else {
          assert t[i] == kept[i] && kept[i] in kept && t[j] == rows[j - |kept|];
          assert Others(meetId, userId)(kept[i]);
        }
      }
    }
  }

  /** A full insertion leaves exactly the new rows as the member's top 5 of the meet, and the rest alone. */
  lemma Top5ReplacementIsExact(table: seq<Top5Entry>, meetId: Id, userId: Id, input: seq<Top5Input>)
    requires ReplaceTop5(table, meetId, userId, input).1 == |input|
    ensures var t := ReplaceTop5(table, meetId, userId, input).0;
      && Filter(t, Mine(meetId, userId)) == Rows(meetId, userId, input)
      && Filter(t, Others(meetId, userId)) == Filter(table, Others(meetId, userId))
  {
    var kept := Filter(table, Others(meetId, userId));
    var rows := Rows(meetId, userId, input);
    assert rows[..|input|] == rows;
    assert ReplaceTop5(table, meetId, userId, input).0 == kept + rows;
    FilterAppend(kept, rows, Mine(meetId, userId));
    FilterAppend(kept, rows, Others(meetId, userId));
    FilterNone(kept, Mine(meetId, userId));
    FilterAll(rows, Mine(meetId, userId));
    FilterAll(kept, Others(meetId, userId));
    FilterNone(rows, Others(meetId, userId));
  }

  /** One line of the aggregate ranking. */
  datatype Ranked = Ranked(bookId: Id, bookTitle: string, bookAuthor: string, totalPoints: int, appearances: int)

  /** The score of one entry, and its weight when counting appearances. */
  function Points(e: Top5Entry): int { 6 - e.rank }
  function One(e: Top5Entry): int { 1 }

  /** The sum of `w` over the entries for book `b`. */
  function BookSum(entries: seq<Top5Entry>, b: Id, w: Top5Entry -> int): int {
    if entries == [] then 0
    else
      var last := entries[|entries| - 1];
      BookSum(entries[..|entries| - 1], b, w) + (if last.bookId == b then w(last) else 0)
  }

  /** The sum of `w` over all entries. */
  function Sum(entries: seq<Top5Entry>, w: Top5Entry -> int): int {
    if entries == [] then 0 else Sum(entries[..|entries| - 1], w) + w(entries[|entries| - 1])
  }

  /** The ranked books in the order the aggregation first meets them (a Map keeps insertion order). */
  function FirstSeen(entries: seq<Top5Entry>): (r: seq<Id>)
    ensures forall i, j :: 0 <= i < j < |r| ==> r[i] != r[j]
    ensures forall b :: b in r <==> exists k :: 0 <= k < |entries| && entries[k].bookId == b
  {
    if entries == [] then []
    else
      var init := entries[..|entries| - 1];
      var seen := FirstSeen(init);
      var b := entries[|entries| - 1].bookId;
      assert forall k :: 0 <= k < |init| ==> entries[k] == init[k];
      if b in seen then seen else seen + [b]
  }

  function TitleOf(books: map<Id, Book>, b: Id): string { if b in books then books[b].title else "" }
  function AuthorOf(books: map<Id, Book>, b: Id): string { if b in books then books[b].author else "" }

  /** The aggregate before sorting: one line per ranked book, in first-seen order. */
  function Groups(entries: seq<Top5Entry>, books: map<Id, Book>): (r: seq<Ranked>)
    ensures |r| == |FirstSeen(entries)|
  {
    var ids := FirstSeen(entries);
    seq(|ids|, k requires 0 <= k < |ids| =>
      Ranked(ids[k], TitleOf(books, ids[k]), AuthorOf(books, ids[k]), BookSum(entries, ids[k], Points), BookSum(entries, ids[k], One)))
  }

  /** Sorted by total points, highest first. */
  ghost predicate SortedByPoints(s: seq<Ranked>) {
    forall i, j :: 0 <= i < j < |s| ==> s[i].totalPoints >= s[j].totalPoints
  }

  /** Inserts `x` after every line with at least its points, keeping the order of equal lines. */
  function InsertByPoints(s: seq<Ranked>, x: Ranked): (r: seq<Ranked>)
    ensures multiset(r) == multiset(s) + multiset{x}
  {
    if s == [] then [x]
    else if s[|s| - 1].totalPoints >= x.totalPoints then s + [x]
    else
      var init := s[..|s| - 1];
      assert s == init + [s[|s| - 1]];
      InsertByPoints(init, x) + [s[|s| - 1]]
  }

  /** Inserting keeps a lower bound on the points that `s` and `x` share. */
  lemma {:induction false} InsertBounded(s: seq<Ranked>, x: Ranked, m: int)
    requires forall k :: 0 <= k < |s| ==> s[k].totalPoints >= m
    requires x.totalPoints >= m
    ensures forall k :: 0 <= k < |InsertByPoints(s, x)| ==> InsertByPoints(s, x)[k].totalPoints >= m
  {
    if s != [] && s[|s| - 1].totalPoints < x.totalPoints {
      InsertBounded(s[..|s| - 1], x, m);
    }
  }

  lemma {:induction false} InsertKeepsSorted(s: seq<Ranked>, x: Ranked)
    requires SortedByPoints(s)
    ensures SortedByPoints(InsertByPoints(s, x))
  {
    if s != [] && s[|s| - 1].totalPoints < x.totalPoints {
      var init := s[..|s| - 1];
      var last := s[|s| - 1];
      InsertKeepsSorted(init, x);
      InsertBounded(init, x, last.totalPoints);
      var inner := InsertByPoints(init, x);
      var r := inner + [last];
      assert r == InsertByPoints(s, x);
      forall i, j | 0 <= i < j < |r| ensures r[i].totalPoints >= r[j].totalPoints {
        assert r[i] == inner[i];
        if j < |inner| {
          assert r[j] == inner[j];
        }
      }
    }
  }

  /** The sort of the aggregate: a stable sort by total points, highest first. */
  function SortByPoints(s: seq<Ranked>): (r: seq<Ranked>)
    ensures SortedByPoints(r) && multiset(r) == multiset(s)
  {
    if s == [] then []
    else
      assert s == s[..|s| - 1] + [s[|s| - 1]];
      InsertKeepsSorted(SortByPoints(s[..|s| - 1]), s[|s| - 1]);
      InsertByPoints(SortByPoints(s[..|s| - 1]), s[|s| - 1])
  }

  /**
   * The aggregate ranking over all top 5 rows: the rows are grouped by book, and the lines are
   * sorted by points.
   */
  method Aggregate(entries: seq<Top5Entry>, books: map<Id, Book>) returns (result: seq<Ranked>)
    ensures result == SortByPoints(Groups(entries, books))
    ensures SortedByPoints(result)
    ensures forall k :: 0 <= k < |result| ==>
      result[k].totalPoints == BookSum(entries, result[k].bookId, Points) &&
      result[k].appearances == BookSum(entries, result[k].bookId, One)
    ensures forall i, j :: 0 <= i < j < |result| ==> result[i].bookId != result[j].bookId
    ensures forall k :: 0 <= k < |entries| ==> exists j :: 0 <= j < |result| && result[j].bookId == entries[k].bookId
    ensures TotalPoints(result) == Sum(entries, Points) && TotalAppearances(result) == |entries|
  {
    var groups := GroupEntries(entries, books);
    result := SortByPoints(groups);
    SortedGroups(entries, books);
    AggregateConserves(entries, books);
  }

  /** The grouping loop: a map from book to its running points and appearances, in first-seen order. */
  method GroupEntries(entries: seq<Top5Entry>, books: map<Id, Book>) returns (groups: seq<Ranked>)
    ensures groups == Groups(entries, books)
  {
    var totals: map<Id, (int, int)> := map[];
    var order: seq<Id> := [];
    for i := 0 to |entries|
      invariant order == FirstSeen(entries[..i])
      invariant forall b :: b in totals <==> b in order
      invariant TotalsMatch(totals, entries[..i])
    {
      var e := entries[i];
      assert entries[..i + 1] == entries[..i] + [e];
      TotalsStep(entries[..i], e, totals);
      if e.bookId in totals {
        totals := totals[e.bookId := (totals[e.bookId].0 + Points(e), totals[e.bookId].1 + 1)];
      } else {
        totals := totals[e.bookId := (Points(e), 1)];
        order := order + [e.bookId];
      }
    }
    assert entries[..|entries|] == entries;
    groups := seq(|order|, k requires 0 <= k < |order| =>
      Ranked(order[k], TitleOf(books, order[k]), AuthorOf(books, order[k]), totals[order[k]].0, totals[order[k]].1));
  }

  /** The sorted aggregate: one line per ranked book, each with that book's points and appearances. */
  lemma SortedGroups(entries: seq<Top5Entry>, books: map<Id, Book>)
    ensures var result := SortByPoints(Groups(entries, books));
      && (forall k :: 0 <= k < |result| ==>
            result[k].totalPoints == BookSum(entries, result[k].bookId, Points) &&
            result[k].appearances == BookSum(entries, result[k].bookId, One))
      && (forall i, j :: 0 <= i < j < |result| ==> result[i].bookId != result[j].bookId)
      && (forall k :: 0 <= k < |entries| ==> exists j :: 0 <= j < |result| && result[j].bookId == entries[k].bookId)
  {
    var groups := Groups(entries, books);
    var ids := FirstSeen(entries);
    var result := SortByPoints(groups);
    forall k | 0 <= k < |result|
      ensures result[k].totalPoints == BookSum(entries, result[k].bookId, Points)
      ensures result[k].appearances == BookSum(entries, result[k].bookId, One)
    {
      assert result[k] in multiset(groups);
    }
    assert KeysDistinct(groups, BookIdOf) by {
      forall i, j | 0 <= i < j < |groups| ensures groups[i].bookId != groups[j].bookId {
        assert groups[i].bookId == ids[i] && groups[j].bookId == ids[j];
      }
    }
    MultisetDistinctIds(groups, result);
    forall k | 0 <= k < |entries| ensures exists j :: 0 <= j < |result| && result[j].bookId == entries[k].bookId {
      assert entries[k].bookId in ids;
      var j :| 0 <= j < |ids| && ids[j] == entries[k].bookId;
      assert groups[j] in multiset(result);
      var n :| 0 <= n < |result| && result[n] == groups[j];
    }
  }

  function BookIdOf(line: Ranked): Id { line.bookId }

  /** A line occurs at most once in lines with distinct books. */
  lemma {:induction false} DistinctOnce(a: seq<Ranked>, x: Ranked)
    requires KeysDistinct(a, BookIdOf)
    ensures multiset(a)[x] <= 1
  {
    if a != [] {
      var init := a[..|a| - 1];
      var last := a[|a| - 1];
      assert a == init + [last];
      assert KeysDistinct(init, BookIdOf) by {
        forall i, j | 0 <= i < j < |init| ensures init[i].bookId != init[j].bookId {
          assert init[i] == a[i] && init[j] == a[j];
        }
      }
      DistinctOnce(init, x);
      if x == last {
        assert x !in init by {
          forall i | 0 <= i < |init| ensures init[i] != last {
            assert init[i] == a[i];
          }
        }
      }
    }
  }

  /** A line at two positions occurs twice. */
  lemma OccursTwice(b: seq<Ranked>, i: nat, j: nat)
    requires i < j < |b| && b[i] == b[j]
    ensures multiset(b)[b[i]] >= 2
  {
    assert b == b[..j] + b[j..];
    assert b[i] == b[..j][i] && b[j] == b[j..][0];
    assert b[i] in multiset(b[..j]) && b[j] in multiset(b[j..]);
  }

  /** Reordering lines with distinct books keeps the books distinct. */
  lemma MultisetDistinctIds(a: seq<Ranked>, b: seq<Ranked>)
    requires multiset(a) == multiset(b) && KeysDistinct(a, BookIdOf)
    ensures forall i, j :: 0 <= i < j < |b| ==> b[i].bookId != b[j].bookId
  {
    forall i, j | 0 <= i < j < |b| ensures b[i].bookId != b[j].bookId {
      if b[i].bookId == b[j].bookId {
        assert b[i] in multiset(a) && b[j] in multiset(a);
        var p :| 0 <= p < |a| && a[p] == b[i];
        var q :| 0 <= q < |a| && a[q] == b[j];
        assert p == q;
        OccursTwice(b, i, j);
        DistinctOnce(a, b[i]);
      }
    }
  }

  /** The running totals of the aggregation: points and appearances of each book seen so far. */
  ghost predicate TotalsMatch(totals: map<Id, (int, int)>, prefix: seq<Top5Entry>) {
    forall b :: b in totals ==> totals[b] == (BookSum(prefix, b, Points), BookSum(prefix, b, One))
  }

  /** One more entry: the book's line gains its points and one appearance, or starts with them. */
  lemma TotalsStep(prefix: seq<Top5Entry>, e: Top5Entry, totals: map<Id, (int, int)>)
    requires TotalsMatch(totals, prefix)
    requires e.bookId !in totals ==> forall k :: 0 <= k < |prefix| ==> prefix[k].bookId != e.bookId
    ensures e.bookId in totals ==>
      TotalsMatch(totals[e.bookId := (totals[e.bookId].0 + Points(e), totals[e.bookId].1 + 1)], prefix + [e])
    ensures e.bookId !in totals ==> TotalsMatch(totals[e.bookId := (Points(e), 1)], prefix + [e])
  {
    var all := prefix + [e];
    assert all[..|all| - 1] == prefix;
    BookSumStep(all, e.bookId, Points);
    BookSumStep(all, e.bookId, One);
    if e.bookId !in totals {
      NotSeenSumsZero(prefix, e.bookId, Points);
      NotSeenSumsZero(prefix, e.bookId, One);
    }
    forall b | b in totals && b != e.bookId
      ensures totals[b] == (BookSum(all, b, Points), BookSum(all, b, One))
    {
      BookSumStep(all, b, Points);
      BookSumStep(all, b, One);
    }
  }

  /** The last entry adds its weight to its own book only. */
  lemma BookSumStep(entries: seq<Top5Entry>, b: Id, w: Top5Entry -> int)
    requires entries != []
    ensures var last := entries[|entries| - 1];
      BookSum(entries, b, w) == BookSum(entries[..|entries| - 1], b, w) + (if last.bookId == b then w(last) else 0)
  {
  }

  /** A book the entries never name sums to zero. */
  lemma {:induction false} NotSeenSumsZero(entries: seq<Top5Entry>, b: Id, w: Top5Entry -> int)
    requires forall k :: 0 <= k < |entries| ==> entries[k].bookId != b
    ensures BookSum(entries, b, w) == 0
  {
    if entries != [] {
      NotSeenSumsZero(entries[..|entries| - 1], b, w);
    }
  }

  /** The sum of `w` over the entries of each book in `ids`. */
  function GroupSum(ids: seq<Id>, entries: seq<Top5Entry>, w: Top5Entry -> int): int {
    if ids == [] then 0 else GroupSum(ids[..|ids| - 1], entries, w) + BookSum(entries, ids[|ids| - 1], w)
  }

  /** Adding one entry adds its weight to the group sum once when its book is among the (distinct) ids. */
  lemma {:induction false} GroupSumStep(ids: seq<Id>, entries: seq<Top5Entry>, e: Top5Entry, w: Top5Entry -> int)
    requires forall i, j :: 0 <= i < j < |ids| ==> ids[i] != ids[j]
    ensures GroupSum(ids, entries + [e], w) == GroupSum(ids, entries, w) + (if e.bookId in ids then w(e) else 0)
  {
    var s := entries + [e];
    assert s[..|s| - 1] == entries;
    if ids != [] {
      var init := ids[..|ids| - 1];
      GroupSumStep(init, entries, e, w);
      assert e.bookId in ids <==> e.bookId in init || e.bookId == ids[|ids| - 1];
      assert ids[|ids| - 1] !in init;
    }
  }

  /** The per-book sums over all ranked books add up to the sum over all entries. */
  lemma {:induction false} GroupSumTotal(entries: seq<Top5Entry>, w: Top5Entry -> int)
    ensures GroupSum(FirstSeen(entries), entries, w) == Sum(entries, w)
  {
    if entries != [] {
      var init := entries[..|entries| - 1];
      var e := entries[|entries| - 1];
      assert entries == init + [e];
      GroupSumTotal(init, w);
      var ids := FirstSeen(init);
      GroupSumStep(ids, init, e, w);
      if e.bookId !in ids {
        NotSeenSumsZero(init, e.bookId, w);
        assert (ids + [e.bookId])[..|ids|] == ids;
      }
    }
  }

  /** The sum of the total points of the lines. */
  function TotalPoints(lines: seq<Ranked>): int {
    if lines == [] then 0 else TotalPoints(lines[..|lines| - 1]) + lines[|lines| - 1].totalPoints
  }

  function TotalAppearances(lines: seq<Ranked>): int {
    if lines == [] then 0 else TotalAppearances(lines[..|lines| - 1]) + lines[|lines| - 1].appearances
  }

  /** Lines carrying the sums of the books `ids` add up to the sum over those books. */
  lemma {:induction false} GroupLines(lines: seq<Ranked>, ids: seq<Id>, entries: seq<Top5Entry>, n: nat)
    requires |lines| == |ids| && n <= |lines|
    requires forall k :: 0 <= k < |lines| ==>
      lines[k].totalPoints == BookSum(entries, ids[k], Points) && lines[k].appearances == BookSum(entries, ids[k], One)
    ensures TotalPoints(lines[..n]) == GroupSum(ids[..n], entries, Points)
    ensures TotalAppearances(lines[..n]) == GroupSum(ids[..n], entries, One)
  {
    if n > 0 {
      GroupLines(lines, ids, entries, n - 1);
      assert lines[..n][..n - 1] == lines[..n - 1];
      assert ids[..n][..n - 1] == ids[..n - 1];
      assert lines[..n][n - 1] == lines[n - 1] && ids[..n][n - 1] == ids[n - 1];
    }
  }

  /**
   * The aggregate's lines, before sorting, hold all points of all entries and one appearance
   * per entry.
   */
  lemma GroupsConserve(entries: seq<Top5Entry>, books: map<Id, Book>)
    ensures TotalPoints(Groups(entries, books)) == Sum(entries, Points)
    ensures TotalAppearances(Groups(entries, books)) == |entries|
  {
    var g := Groups(entries, books);
    var ids := FirstSeen(entries);
    GroupLines(g, ids, entries, |ids|);
    assert g[..|ids|] == g && ids[..|ids|] == ids;
    GroupSumTotal(entries, Points);
    GroupSumTotal(entries, One);
    CountIsLength(entries);
  }

  /** Inserting a line adds exactly its points and appearances to the totals. */
  lemma {:induction false} InsertKeepsTotals(s: seq<Ranked>, x: Ranked)
    ensures TotalPoints(InsertByPoints(s, x)) == TotalPoints(s) + x.totalPoints
    ensures TotalAppearances(InsertByPoints(s, x)) == TotalAppearances(s) + x.appearances
  {
    if s == [] {
      assert [x][..0] == [];
    } else if s[|s| - 1].totalPoints >= x.totalPoints {
      assert (s + [x])[..|s|] == s;
    } else {
      var init := s[..|s| - 1];
      InsertKeepsTotals(init, x);
      var r := InsertByPoints(init, x) + [s[|s| - 1]];
      assert r[..|r| - 1] == InsertByPoints(init, x);
    }
  }

  /** Sorting moves the lines around but keeps their totals. */
  lemma {:induction false} SortKeepsTotals(s: seq<Ranked>)
    ensures TotalPoints(SortByPoints(s)) == TotalPoints(s)
    ensures TotalAppearances(SortByPoints(s)) == TotalAppearances(s)
  {
    if s != [] {
      SortKeepsTotals(s[..|s| - 1]);
      InsertKeepsTotals(SortByPoints(s[..|s| - 1]), s[|s| - 1]);
    }
  }

  /**
   * The sorted ranking the route returns holds all points of all entries and one appearance
   * per entry.
   */
  lemma AggregateConserves(entries: seq<Top5Entry>, books: map<Id, Book>)
    ensures TotalPoints(SortByPoints(Groups(entries, books))) == Sum(entries, Points)
    ensures TotalAppearances(SortByPoints(Groups(entries, books))) == |entries|
  {
    GroupsConserve(entries, books);
    SortKeepsTotals(Groups(entries, books));
  }

  lemma {:induction false} CountIsLength(entries: seq<Top5Entry>)
    ensures Sum(entries, One) == |entries|
  {
    if entries != [] {
      CountIsLength(entries[..|entries| - 1]);
    }
  }
}
