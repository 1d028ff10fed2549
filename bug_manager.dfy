/** The bug store and query engine (`managers.BugManager`).  The backing file
    is the field `medium`; every operation reloads it in full, changes the
    freshly loaded objects, and rewrites it in full. */
module BugManagement {
  import opened Outcomes
  import opened Strings
  import opened Enums
  import opened Lists
  import opened Bugs
  import opened BugFormat

  // ---------------------------------------------------------------------
  // Record-level specification of the single-record operations
  // ---------------------------------------------------------------------

  /** The position of the first record with the given id, if any. */
  function FirstIndexOf(bugs: seq<BugRecord>, id: int): (r: Option<nat>)
    ensures r.Some? ==> r.value < |bugs| && bugs[r.value].id == id
    ensures r.Some? ==> forall j :: 0 <= j < r.value ==> bugs[j].id != id
    ensures r.None? <==> forall j :: 0 <= j < |bugs| ==> bugs[j].id != id
  {
    if bugs == [] then None
    else if bugs[0].id == id then Some(0)
    else
      match FirstIndexOf(bugs[1..], id)
      case None => None
      case Some(k) => Some(k + 1)
  }

  /** The record `updateBugField` makes of `b` for a field choice, or none for
      a choice outside 1-5; text for status and priority is looked up with
      the NEW and LOW defaults. */
  function UpdatedField(b: BugRecord, choice: int, value: string): (r: Option<BugRecord>)
    ensures r.Some? <==> 1 <= choice <= 5
    ensures r.Some? ==> r.value.id == b.id && r.value.comments == b.comments
    ensures r.Some? ==> r.value.title == (if choice == 1 then value else b.title)
    ensures r.Some? ==> r.value.description == (if choice == 2 then value else b.description)
    ensures r.Some? ==> r.value.status == (if choice == 3 then StatusOrDefault(value) else b.status)
    ensures r.Some? ==> r.value.priority == (if choice == 4 then PriorityOrDefault(value) else b.priority)
    ensures r.Some? ==> r.value.assignedTo == (if choice == 5 then value else b.assignedTo)
  {
    if choice == 1 then Some(b.(title := value))
    else if choice == 2 then Some(b.(description := value))
    else if choice == 3 then Some(b.(status := StatusOrDefault(value)))
    else if choice == 4 then Some(b.(priority := PriorityOrDefault(value)))
    else if choice == 5 then Some(b.(assignedTo := value))
    else None
  }

  /** `deleteBug` on the loaded records: none when no record has the id,
      otherwise the records without the first one that has it. */
  function Deleted(bugs: seq<BugRecord>, id: int): Option<seq<BugRecord>> {
    match FirstIndexOf(bugs, id)
    case None => None
    case Some(k) => Some(bugs[..k] + bugs[k + 1..])
  }

  /** `updateBugField` on the loaded records: none for an unknown id or a
      choice outside 1-5, otherwise the records with the first match updated. */
  function Updated(bugs: seq<BugRecord>, id: int, choice: int, value: string): Option<seq<BugRecord>> {
    match FirstIndexOf(bugs, id)
    case None => None
    case Some(k) =>
      match UpdatedField(bugs[k], choice, value)
      case None => None
      case Some(b) => Some(bugs[k := b])
  }

  /** `addCommentToBug` on the loaded records: none for an unknown id,
      otherwise the records with the comment appended to the first match. */
  function Commented(bugs: seq<BugRecord>, id: int, comment: string): Option<seq<BugRecord>> {
    match FirstIndexOf(bugs, id)
    case None => None
    case Some(k) => Some(bugs[k := bugs[k].(comments := bugs[k].comments + [comment])])
  }

  /** Deleting removes exactly one record, the first with the id; the others
      stay, in order, later records with the same id included. */
  lemma DeleteRemovesFirstMatch(bugs: seq<BugRecord>, id: int)
    ensures Deleted(bugs, id).None? <==> forall j :: 0 <= j < |bugs| ==> bugs[j].id != id
    ensures Deleted(bugs, id).Some? ==>
              var k := FirstIndexOf(bugs, id).value;
              var rest := Deleted(bugs, id).value;
              bugs[k].id == id && |rest| == |bugs| - 1 &&
              (forall j :: 0 <= j < k ==> rest[j] == bugs[j] && rest[j].id != id) &&
              (forall j :: k < j < |bugs| ==> rest[j - 1] == bugs[j]) &&
              multiset(rest) + multiset{bugs[k]} == multiset(bugs)
  {
    if FirstIndexOf(bugs, id).Some? {
      CutOut(bugs, FirstIndexOf(bugs, id).value);
    }
  }

  /** An update changes the first record with the id and nothing else, and
      keeps every id, so the same record is found again. */
  lemma UpdateChangesOneRecord(bugs: seq<BugRecord>, id: int, choice: int, value: string)
    ensures Updated(bugs, id, choice, value).None? <==>
              FirstIndexOf(bugs, id).None? || !(1 <= choice <= 5)
    ensures Updated(bugs, id, choice, value).Some? ==>
              var k := FirstIndexOf(bugs, id).value;
              var after := Updated(bugs, id, choice, value).value;
              |after| == |bugs| && after[k] == UpdatedField(bugs[k], choice, value).value &&
              (forall j :: 0 <= j < |bugs| && j != k ==> after[j] == bugs[j]) &&
              (forall j :: 0 <= j < |bugs| ==> after[j].id == bugs[j].id) &&
              FirstIndexOf(after, id) == Some(k)
  {
    if Updated(bugs, id, choice, value).Some? {
      SameIdsSameIndex(bugs, Updated(bugs, id, choice, value).value, id);
    }
  }

  /** Adding a comment appends it to the first record with the id; earlier
      comments and every other record stay as they were. */
  lemma CommentAppendsToOneRecord(bugs: seq<BugRecord>, id: int, comment: string)
    ensures Commented(bugs, id, comment).None? <==> FirstIndexOf(bugs, id).None?
    ensures Commented(bugs, id, comment).Some? ==>
              var k := FirstIndexOf(bugs, id).value;
              var after := Commented(bugs, id, comment).value;
              |after| == |bugs| &&
              after[k] == bugs[k].(comments := bugs[k].comments + [comment]) &&
              after[k].comments[..|bugs[k].comments|] == bugs[k].comments &&
              (forall j :: 0 <= j < |bugs| && j != k ==> after[j] == bugs[j]) &&
              FirstIndexOf(after, id) == Some(k)
  {
    if Commented(bugs, id, comment).Some? {
      var k := FirstIndexOf(bugs, id).value;
      assert (bugs[k].comments + [comment])[..|bugs[k].comments|] == bugs[k].comments;
      SameIdsSameIndex(bugs, Commented(bugs, id, comment).value, id);
    }
  }

  /** Two lists with the same ids find an id at the same position. */
  lemma {:induction false} SameIdsSameIndex(a: seq<BugRecord>, b: seq<BugRecord>, id: int)
    requires |a| == |b|
    requires forall j :: 0 <= j < |a| ==> a[j].id == b[j].id
    ensures FirstIndexOf(a, id) == FirstIndexOf(b, id)
  {
    if a != [] {
      SameIdsSameIndex(a[1..], b[1..], id);
    }
  }

  /** `existingBugs.stream().mapToInt(Bug::getId).max().orElse(0)`. */
  function MaxId(bugs: seq<BugRecord>): (m: int)
    ensures bugs == [] ==> m == 0
    ensures forall i :: 0 <= i < |bugs| ==> bugs[i].id <= m
    ensures bugs != [] ==> exists i :: 0 <= i < |bugs| && bugs[i].id == m
  {
    if bugs == [] then 0
    else
      var rest := MaxId(bugs[1..]);
      if bugs[1..] == [] || bugs[0].id >= rest then bugs[0].id else rest
  }

  /** The caller's id rule (`Main.addNewBug`): `maxId + 1` in 32-bit `int`
      arithmetic. */
  function NextId(bugs: seq<BugRecord>): int {
    IntWrap(MaxId(bugs) + 1)
  }

  /** The rule gives 1 for an empty store. Below the largest `int` it gives
      one more than the largest id, a 32-bit value. */
  lemma NextIdOfStore(bugs: seq<BugRecord>)
    requires forall i :: 0 <= i < |bugs| ==> InIntRange(bugs[i].id)
    ensures bugs == [] ==> NextId(bugs) == 1
    ensures InIntRange(NextId(bugs))
    ensures MaxId(bugs) < INT_MAX ==> NextId(bugs) == MaxId(bugs) + 1
    ensures MaxId(bugs) == INT_MAX ==> NextId(bugs) == INT_MIN
  {
    if bugs != [] {
      var i :| 0 <= i < |bugs| && bugs[i].id == MaxId(bugs);
      assert InIntRange(MaxId(bugs));
    }
  }

  /** A fresh id from that rule misses every stored record, as long as no
      stored id is the largest `int`. */
  lemma NextIdIsFresh(bugs: seq<BugRecord>)
    requires forall i :: 0 <= i < |bugs| ==> INT_MIN <= bugs[i].id < INT_MAX
    ensures FirstIndexOf(bugs, NextId(bugs)).None?
  {
    NextIdOfStore(bugs);
  }

  /** At the largest `int` the rule wraps around to the smallest, and so
      repeats the id of a record stored with it. */
  lemma NextIdWrapsOnto(bugs: seq<BugRecord>, i: nat, j: nat)
    requires forall k :: 0 <= k < |bugs| ==> InIntRange(bugs[k].id)
    requires i < |bugs| && bugs[i].id == INT_MAX
    requires j < |bugs| && bugs[j].id == INT_MIN
    ensures NextId(bugs) == INT_MIN
    ensures FirstIndexOf(bugs, NextId(bugs)).Some?
  {
    NextIdOfStore(bugs);
  }

  // ---------------------------------------------------------------------
  // The query engine (`searchBugs`)
  // ---------------------------------------------------------------------

  /** The keyword filter is on only when the trimmed keyword is not empty. */
  predicate KeywordActive(keyword: Option<string>) {
    keyword.Some? && Trim(keyword.value) != []
  }

  /** The lower-cased, untrimmed keyword occurs in the lower-cased title or
      description. */
  predicate MatchesKeyword(b: BugRecord, keyword: string) {
    Contains(ToLower(b.title), ToLower(keyword)) || Contains(ToLower(b.description), ToLower(keyword))
  }

  predicate Passes(b: BugRecord, keyword: Option<string>, statusFilter: Option<Status>) {
    (KeywordActive(keyword) ==> MatchesKeyword(b, keyword.value)) &&
    (statusFilter.Some? ==> b.status == statusFilter.value)
  }

  function PassesFilter(keyword: Option<string>, statusFilter: Option<Status>): BugRecord -> bool {
    b => Passes(b, keyword, statusFilter)
  }

  datatype SortKey = NoSort | ByPriority | ByStatus

  /** `"priority".equalsIgnoreCase(sortBy)`, then `"status"`; anything else,
      `null` included, sorts nothing. */
  function SortKeyOf(sortBy: Option<string>): SortKey {
    if sortBy.Some? && EqualsIgnoreCase("priority", sortBy.value) then ByPriority
    else if sortBy.Some? && EqualsIgnoreCase("status", sortBy.value) then ByStatus
    else NoSort
  }

  function PriorityRank(b: BugRecord): int {
    PriorityOrdinal(b.priority)
  }

  function StatusRank(b: BugRecord): int {
    StatusOrdinal(b.status)
  }

  /** The records `searchBugs` returns for the loaded records `bugs`. */
  function Search(bugs: seq<BugRecord>, keyword: Option<string>, statusFilter: Option<Status>,
                  sortBy: Option<string>): seq<BugRecord>
  {
    Ordered(Filter(bugs, PassesFilter(keyword, statusFilter)), SortKeyOf(sortBy))
  }

  /** The matching records in the order a sort key asks for. */
  function Ordered(hits: seq<BugRecord>, key: SortKey): seq<BugRecord> {
    match key
    case NoSort => hits
    case ByPriority => SortBy(hits, PriorityRank)
    case ByStatus => SortBy(hits, StatusRank)
  }

  /** The result holds exactly the records that pass both filters, each as
      often as in the store; without a sort key it is those records in file
      order. */
  lemma SearchSelectsPassing(bugs: seq<BugRecord>, keyword: Option<string>,
                             statusFilter: Option<Status>, sortBy: Option<string>)
    ensures var r := Search(bugs, keyword, statusFilter, sortBy);
            multiset(r) == multiset(Filter(bugs, PassesFilter(keyword, statusFilter))) &&
            (forall i :: 0 <= i < |r| ==> r[i] in bugs && Passes(r[i], keyword, statusFilter)) &&
            (forall i :: 0 <= i < |bugs| && Passes(bugs[i], keyword, statusFilter) ==> bugs[i] in r) &&
            (SortKeyOf(sortBy) == NoSort ==> r == Filter(bugs, PassesFilter(keyword, statusFilter)))
  {
    var hits := Filter(bugs, PassesFilter(keyword, statusFilter));
    var r := Search(bugs, keyword, statusFilter, sortBy);
    SortByPermutes(hits, PriorityRank);
    SortByPermutes(hits, StatusRank);
    assert multiset(r) == multiset(hits);
    forall i | 0 <= i < |r| ensures r[i] in bugs && Passes(r[i], keyword, statusFilter) {
      assert r[i] in multiset(r);
      assert r[i] in hits;
    }
    forall i | 0 <= i < |bugs| && Passes(bugs[i], keyword, statusFilter) ensures bugs[i] in r {
      assert bugs[i] in hits;
      assert bugs[i] in multiset(hits);
    }
  }

  /** With "priority" (or "status"), in any case, the result is in ascending
      order of the enumeration's declared order, and records with equal keys
      keep their file order. */
  lemma SearchSortsStably(bugs: seq<BugRecord>, keyword: Option<string>,
                          statusFilter: Option<Status>, sortBy: Option<string>, v: int)
    ensures var r := Search(bugs, keyword, statusFilter, sortBy);
            var hits := Filter(bugs, PassesFilter(keyword, statusFilter));
            (SortKeyOf(sortBy) == ByPriority ==>
               SortedBy(r, PriorityRank) &&
               Filter(r, KeyIs(PriorityRank, v)) == Filter(hits, KeyIs(PriorityRank, v))) &&
            (SortKeyOf(sortBy) == ByStatus ==>
               SortedBy(r, StatusRank) &&
               Filter(r, KeyIs(StatusRank, v)) == Filter(hits, KeyIs(StatusRank, v)))
  {
    var hits := Filter(bugs, PassesFilter(keyword, statusFilter));
    SortBySorted(hits, PriorityRank);
    SortByStable(hits, PriorityRank, v);
    SortBySorted(hits, StatusRank);
    SortByStable(hits, StatusRank, v);
  }

  /** Without a keyword, a status filter or a sort key, the search returns
      the loaded records as they are; a blank keyword is no keyword. */
  lemma SearchWithoutFiltersIsIdentity(bugs: seq<BugRecord>, blank: string)
    requires Trim(blank) == []
    ensures Search(bugs, None, None, None) == bugs
    ensures Search(bugs, Some(blank), None, None) == bugs
  {
    FilterAll(bugs, PassesFilter(None, None));
    FilterAll(bugs, PassesFilter(Some(blank), None));
  }

  /** The sort key text is matched ignoring case: it sorts by priority
      exactly when it lower-cases to "priority", by status exactly when it
      lower-cases to "status", and otherwise, or when absent, not at all. */
  lemma SortKeyIgnoresCase(sortBy: Option<string>)
    ensures SortKeyOf(sortBy) == ByPriority <==> sortBy.Some? && ToLower(sortBy.value) == "priority"
    ensures SortKeyOf(sortBy) == ByStatus <==> sortBy.Some? && ToLower(sortBy.value) == "status"
    ensures SortKeyOf(sortBy) == NoSort <==>
              sortBy.None? || (ToLower(sortBy.value) != "priority" && ToLower(sortBy.value) != "status")
  {
    if sortBy.Some? {
      var s := sortBy.value;
      LowerEqualIffEqualsIgnoreCase("priority", s);
      LowerEqualIffEqualsIgnoreCase("status", s);
      assert ToLower("priority") == "priority";
      assert ToLower("status") == "status";
    }
  }

  /** Three records with priorities HIGH, LOW, LOW sort as the second, the
      third, then the first. */
  lemma PrioritySortExample(a: BugRecord, b: BugRecord, c: BugRecord)
    requires a.priority == High && b.priority == Low && c.priority == Low
    ensures SortBy([a, b, c], PriorityRank) == [b, c, a]
  {
    assert [a, b, c][1..] == [b, c];
    assert [b, c][1..] == [c];
    assert [c][1..] == [];
    assert SortBy([c], PriorityRank) == [c];
    assert SortBy([b, c], PriorityRank) == [b, c];
    assert [c, a][1..] == [a];
    assert InsertBy(a, [c], PriorityRank) == [c, a];
    assert InsertBy(a, [b, c], PriorityRank) == [b] + InsertBy(a, [c], PriorityRank);
  }

  /** The keyword is lower-cased but not trimmed: " crash" is an active
      keyword, and it does not match a title that is just "crash". */
  lemma KeywordIsNotTrimmed(b: BugRecord)
    requires b.title == "crash" && b.description == ""
    ensures KeywordActive(Some(" crash"))
    ensures !Passes(b, Some(" crash"), None)
  {
    assert TrimStart(" crash") == "crash";
    assert Trim(" crash") == "crash";
    assert ToLower(" crash") == " crash";
    assert ToLower("crash") == "crash";
    assert ToLower("") == "";
    ContainsNeedsRoom("crash", " crash");
    ContainsNeedsRoom("", " crash");
  }

  // ---------------------------------------------------------------------
  // Sorting the result objects (`results.sort(...)`)
  // ---------------------------------------------------------------------

  /** Each result object paired with the record it holds. */
  function Tag(bugs: seq<Bug>): (tagged: seq<(Bug, BugRecord)>)
    reads bugs
    ensures |tagged| == |bugs|
    ensures forall i :: 0 <= i < |bugs| ==> tagged[i] == (bugs[i], bugs[i].Value())
  {
    seq(|bugs|, i reads bugs requires 0 <= i < |bugs| => (bugs[i], bugs[i].Value()))
  }

  function Handle(p: (Bug, BugRecord)): Bug {
    p.0
  }

  function Held(p: (Bug, BugRecord)): BugRecord {
    p.1
  }

  function Ranked(rank: BugRecord -> int): ((Bug, BugRecord)) -> int {
    (p: (Bug, BugRecord)) => rank(p.1)
  }

  /** Sorting the objects by the key of the record each holds gives objects
      whose records are the sorted records. */
  lemma SortTagged(bugs: seq<Bug>, rank: BugRecord -> int)
    ensures Values(Map(SortBy(Tag(bugs), Ranked(rank)), Handle)) == SortBy(Values(bugs), rank)
  {
    var tagged := Tag(bugs);
    var sorted := SortBy(tagged, Ranked(rank));
    SortByMap(tagged, Held, rank, Ranked(rank));
    assert Map(tagged, Held) == Values(bugs);
    SortByPermutes(tagged, Ranked(rank));
    forall i | 0 <= i < |sorted| ensures sorted[i].0.Value() == sorted[i].1 {
      assert sorted[i] in multiset(sorted);
      assert sorted[i] in tagged;
    }
    assert Values(Map(sorted, Handle)) == Map(sorted, Held);
  }

  // ---------------------------------------------------------------------
  // The store
  // ---------------------------------------------------------------------

  /** Bug objects that are new, and pairwise distinct. */
  twostate predicate FreshDistinct(new bugs: seq<Bug>) {
    (forall i :: 0 <= i < |bugs| ==> fresh(bugs[i])) &&
    (forall i, j :: 0 <= i < j < |bugs| ==> bugs[i] != bugs[j])
  }

  lemma SerializeSnoc(bugs: seq<BugRecord>, b: BugRecord)
    ensures Serialize(bugs + [b]) == Serialize(bugs) + FormatLine(b) + "\n"
  {
    if bugs != [] {
      assert (bugs + [b])[1..] == bugs[1..] + [b];
      SerializeSnoc(bugs[1..], b);
    } else {
      assert bugs + [b] == [b];
    }
  }

  class BugManager {
    /** The content of the bug file; `None` when the file does not exist. */
    var medium: Option<string>

    constructor (stored: Option<string>)
      ensures medium == stored
    {
      medium := stored;
    }

    /** `loadBugs`: one new `Bug` per record of the file, in file order, or the
        failure of the first seven-field line whose id is not a number. */
    method LoadBugs() returns (r: Result<seq<Bug>, LoadError>)
      ensures ParseMedium(medium).Err? ==> r == Err(ParseMedium(medium).error)
      ensures ParseMedium(medium).Ok? ==>
                r.Ok? && Values(r.value) == ParseMedium(medium).value && FreshDistinct(r.value)
    {
      if medium.None? {
        return Ok([]);
      }
      r := LoadLines(Lines(medium.value));
    }

    /** The loop of `loadBugs`: one bug object per parsed line, in order,
        until a line with a bad id ends the load. */
    static method LoadLines(lines: seq<string>) returns (r: Result<seq<Bug>, LoadError>)
      ensures ParseLines(lines).Err? ==> r == Err(ParseLines(lines).error)
      ensures ParseLines(lines).Ok? ==>
                r.Ok? && Values(r.value) == ParseLines(lines).value && FreshDistinct(r.value)
    {
      var bugs: seq<Bug> := [];
      ghost var recs: seq<BugRecord> := [];
      var i := 0;
      while i < |lines|
        invariant 0 <= i <= |lines|
        invariant ParseLines(lines[..i]) == Ok(recs)
        invariant Values(bugs) == recs
        invariant FreshDistinct(bugs)
      {
        var outcome := ParseLine(lines[i]);
        if outcome.BadId? {
          LoadAborts(lines, i, recs, outcome.text);
          return Err(IdNotANumber(outcome.text));
        } else if outcome.Skipped? {
          LoadSkips(lines, i, recs);
        } else {
          var rec := outcome.bug;
          var bug := NewBug(rec);
          LoadKeeps(lines, i, recs, rec, bugs, bug);
          bugs := bugs + [bug];
          recs := recs + [rec];
        }
        i := i + 1;
      }
      TakeAll(lines);
      return Ok(bugs);
    }

    /** The bug object `loadBugs` builds for one parsed line. */
    static method NewBug(rec: BugRecord) returns (bug: Bug)
      ensures fresh(bug) && bug.Value() == rec
    {
      bug := new Bug.WithComments(rec.id, rec.title, rec.description, rec.status,
                                  rec.priority, rec.assignedTo, Some(rec.comments));
    }

    /** `saveBugs`: rewrites the whole file, one line per bug. */
    method SaveBugs(bugs: seq<Bug>)
      modifies this
      ensures medium == Some(Serialize(Values(bugs)))
    {
      var text := "";
      for i := 0 to |bugs|
        invariant text == Serialize(Values(bugs[..i]))
      {
        assert Values(bugs[..i + 1]) == Values(bugs[..i]) + [bugs[i].Value()];
        SerializeSnoc(Values(bugs[..i]), bugs[i].Value());
        text := text + FormatLine(bugs[i].Value()) + "\n";
      }
      assert bugs[..|bugs|] == bugs;
      medium := Some(text);
    }

    /** `updateBugs`: overwrites the file with the given bugs. */
    method UpdateBugs(bugs: seq<Bug>)
      modifies this
      ensures medium == Some(Serialize(Values(bugs)))
    {
      SaveBugs(bugs);
    }

    /** `addBug`: appends the bug after everything in the file, even when its
        id is already taken. */
    method AddBug(bug: Bug) returns (r: Result<(), LoadError>)
      modifies this
      ensures match ParseMedium(old(medium))
              case Err(e) => r == Err(e) && medium == old(medium)
              case Ok(bs) => r == Ok(()) && medium == Some(Serialize(bs + [bug.Value()]))
    {
      var loaded := LoadBugs();
      if loaded.Err? {
        return Err(loaded.error);
      }
      var bugs := loaded.value + [bug];
      assert Values(bugs) == Values(loaded.value) + [bug.Value()];
      SaveBugs(bugs);
      return Ok(());
    }

    /** `findBugById`: the first bug with the id, or none; the file is not written. */
    method FindBugById(id: int) returns (r: Result<Option<Bug>, LoadError>)
      ensures ParseMedium(medium).Err? ==> r == Err(ParseMedium(medium).error)
      ensures ParseMedium(medium).Ok? ==> r.Ok?
      ensures ParseMedium(medium).Ok? ==>
                (r.value.None? <==> FirstIndexOf(ParseMedium(medium).value, id).None?)
      ensures ParseMedium(medium).Ok? && r.value.Some? ==>
                var bs := ParseMedium(medium).value;
                r.value.value.Value() == bs[FirstIndexOf(bs, id).value]
    {
      var loaded := LoadBugs();
      if loaded.Err? {
        return Err(loaded.error);
      }
      var bugs := loaded.value;
      var found := IndexOfId(bugs, id);
      if found.None? {
        return Ok(None);
      }
      return Ok(Some(bugs[found.value]));
    }

    /** The loop of `deleteBug`, `updateBugField` and `addCommentToBug` that
        looks for the first bug with the id. */
    static method IndexOfId(bugs: seq<Bug>, id: int) returns (found: Option<nat>)
      ensures found == FirstIndexOf(Values(bugs), id)
    {
      ghost var recs := Values(bugs);
      for i := 0 to |bugs|
        invariant forall j :: 0 <= j < i ==> recs[j].id != id
      {
        if bugs[i].id == id {
          return Some(i);
        }
      }
      return None;
    }

    /** `deleteBug`: removes the first bug with the id and rewrites the file;
        without such a bug, returns false and writes nothing. */
    method DeleteBug(id: int) returns (r: Result<bool, LoadError>)
      modifies this
      ensures ParseMedium(old(medium)).Err? ==>
                r == Err(ParseMedium(old(medium)).error) && medium == old(medium)
      ensures ParseMedium(old(medium)).Ok? ==>
                var change := Deleted(ParseMedium(old(medium)).value, id);
                r == Ok(change.Some?) &&
                medium == if change.Some? then Some(Serialize(change.value)) else old(medium)
    {
      var loaded := LoadBugs();
      if loaded.Err? {
        return Err(loaded.error);
      }
      var bugs := loaded.value;
      ghost var bs := Values(bugs);
      assert ParseMedium(old(medium)) == Ok(bs);
      var found := IndexOfId(bugs, id);
      if found.None? {
        return Ok(false);
      }
      var k := found.value;
      var rest := Without(bugs, k);
      assert Deleted(bs, id) == Some(Values(rest));
      SaveBugs(rest);
      return Ok(true);
    }

    /** `bugs.remove(found)` for the object at position `k`: the loaded
        objects are distinct, so the first one identical to it is that one. */
    static method Without(bugs: seq<Bug>, k: nat) returns (rest: seq<Bug>)
      requires k < |bugs|
      ensures Values(rest) == Values(bugs)[..k] + Values(bugs)[k + 1..]
    {
      rest := bugs[..k] + bugs[k + 1..];
      ValuesWithout(bugs, k);
    }

    /** The `switch` of `updateBugField`: sets field 1-5 of one bug; any other
        choice sets nothing. */
    static method ApplyField(b: Bug, fieldChoice: int, newValue: string) returns (applied: bool)
      modifies b
      ensures applied <==> 1 <= fieldChoice <= 5
      ensures applied ==> b.Value() == UpdatedField(old(b.Value()), fieldChoice, newValue).value
      ensures !applied ==> b.Value() == old(b.Value())
    {
      if fieldChoice == 1 {
        b.SetTitle(newValue);
      } else if fieldChoice == 2 {
        b.SetDescription(newValue);
      } else if fieldChoice == 3 {
        var s := StringToStatus(newValue);
        if s.None? {
          s := Some(New);
        }
        b.SetStatus(s.value);
      } else if fieldChoice == 4 {
        var p := StringToPriority(newValue);
        if p.None? {
          p := Some(Low);
        }
        b.SetPriority(p.value);
      } else if fieldChoice == 5 {
        b.SetAssignedTo(newValue);
      } else {
        return false;
      }
      return true;
    }

    /** `updateBugField`: sets field 1-5 (title, description, status, priority,
        assignee) of the first bug with the id and rewrites the file; an
        unknown id or another choice returns false and writes nothing. */
    method UpdateBugField(id: int, fieldChoice: int, newValue: string) returns (r: Result<bool, LoadError>)
      modifies this
      ensures ParseMedium(old(medium)).Err? ==>
                r == Err(ParseMedium(old(medium)).error) && medium == old(medium)
      ensures ParseMedium(old(medium)).Ok? ==>
                var change := Updated(ParseMedium(old(medium)).value, id, fieldChoice, newValue);
                r == Ok(change.Some?) &&
                medium == if change.Some? then Some(Serialize(change.value)) else old(medium)
    {
      var loaded := LoadBugs();
      if loaded.Err? {
        return Err(loaded.error);
      }
      var bugs := loaded.value;
      ghost var bs := Values(bugs);
      assert ParseMedium(old(medium)) == Ok(bs);
      var found := IndexOfId(bugs, id);
      if found.None? {
        return Ok(false);
      }
      var k := found.value;
      var applied := ApplyField(bugs[k], fieldChoice, newValue);
      if !applied {
        return Ok(false);
      }
      ghost var nb := UpdatedField(bs[k], fieldChoice, newValue).value;
      OneObjectChanged(bugs, k, bs, nb);
      assert Updated(bs, id, fieldChoice, newValue) == Some(Values(bugs));
      SaveBugs(bugs);
      return Ok(true);
    }

    /** `addCommentToBug`: appends the comment to the first bug with the id and
        rewrites the file; an unknown id returns false and writes nothing. */
    method AddCommentToBug(id: int, comment: string) returns (r: Result<bool, LoadError>)
      modifies this
      ensures ParseMedium(old(medium)).Err? ==>
                r == Err(ParseMedium(old(medium)).error) && medium == old(medium)
      ensures ParseMedium(old(medium)).Ok? ==>
                var change := Commented(ParseMedium(old(medium)).value, id, comment);
                r == Ok(change.Some?) &&
                medium == if change.Some? then Some(Serialize(change.value)) else old(medium)
    {
      var loaded := LoadBugs();
      if loaded.Err? {
        return Err(loaded.error);
      }
      var bugs := loaded.value;
      ghost var bs := Values(bugs);
      assert ParseMedium(old(medium)) == Ok(bs);
      var found := IndexOfId(bugs, id);
      if found.None? {
        return Ok(false);
      }
      var k := found.value;
      bugs[k].AddComment(comment);
      ghost var nb := bs[k].(comments := bs[k].comments + [comment]);
      OneObjectChanged(bugs, k, bs, nb);
      assert Commented(bs, id, comment) == Some(Values(bugs));
      SaveBugs(bugs);
      return Ok(true);
    }

    /** The test `searchBugs` applies to one bug. */
    static method Matches(bug: Bug, keyword: Option<string>, statusFilter: Option<Status>)
      returns (matches: bool)
      ensures matches == Passes(bug.Value(), keyword, statusFilter)
    {
      var filterByKeyword := keyword.Some? && Trim(keyword.value) != [];
      var filterByStatus := statusFilter.Some?;
      matches := true;
      if filterByKeyword {
        var kw := ToLower(keyword.value);
        if !Contains(ToLower(bug.title), kw) && !Contains(ToLower(bug.description), kw) {
          matches := false;
        }
      }
      if matches && filterByStatus {
        if bug.status != statusFilter.value {
          matches := false;
        }
      }
    }

    /** `searchBugs`: the loaded bugs that pass the keyword and status filters,
        in file order, then sorted stably by priority or status if asked. */
    method SearchBugs(keyword: Option<string>, statusFilter: Option<Status>, sortBy: Option<string>)
      returns (r: Result<seq<Bug>, LoadError>)
      ensures ParseMedium(medium).Err? ==> r == Err(ParseMedium(medium).error)
      ensures ParseMedium(medium).Ok? ==>
                r.Ok? && Values(r.value) == Search(ParseMedium(medium).value, keyword, statusFilter, sortBy)
    {
      var loaded := LoadBugs();
      if loaded.Err? {
        return Err(loaded.error);
      }
      var hits := SelectMatching(loaded.value, keyword, statusFilter);
      var sorted := SortResults(hits, sortBy);
      return Ok(sorted);
    }

    /** The loop of `searchBugs`: the bugs passing both filters, in order. */
    static method SelectMatching(bugs: seq<Bug>, keyword: Option<string>, statusFilter: Option<Status>)
      returns (results: seq<Bug>)
      ensures Values(results) == Filter(Values(bugs), PassesFilter(keyword, statusFilter))
    {
      ghost var bs := Values(bugs);
      ghost var pass := PassesFilter(keyword, statusFilter);
      ghost var recs: seq<BugRecord> := [];
      results := [];
      for i := 0 to |bugs|
        invariant recs == Filter(bs[..i], pass)
        invariant Values(results) == recs
      {
        var bug := bugs[i];
        var matches := Matches(bug, keyword, statusFilter);
        SelectStep(bs, i, pass, recs, bug.Value(), matches);
        if matches {
          ValuesSnoc(results, bug);
          results := results + [bug];
          recs := recs + [bug.Value()];
        }
      }
      TakeAll(bs);
    }

    /** The stable sort of `searchBugs`, by the key `sortBy` names. */
    static method SortResults(results: seq<Bug>, sortBy: Option<string>) returns (sorted: seq<Bug>)
      ensures Values(sorted) == Ordered(Values(results), SortKeyOf(sortBy))
    {
      if sortBy.Some? && EqualsIgnoreCase("priority", sortBy.value) {
        SortTagged(results, PriorityRank);
        sorted := Map(SortBy(Tag(results), Ranked(PriorityRank)), Handle);
      } else if sortBy.Some? && EqualsIgnoreCase("status", sortBy.value) {
        SortTagged(results, StatusRank);
        sorted := Map(SortBy(Tag(results), Ranked(StatusRank)), Handle);
      } else {
        sorted := results;
      }
    }
  }

  /** One round of the filter loop of `searchBugs`. */
  lemma SelectStep(bs: seq<BugRecord>, i: nat, pass: BugRecord -> bool, recs: seq<BugRecord>,
                   b: BugRecord, matches: bool)
    requires i < |bs| && recs == Filter(bs[..i], pass)
    requires bs[i] == b && matches == pass(b)
    ensures (if matches then recs + [b] else recs) == Filter(bs[..i + 1], pass)
  {
    FilterStep(bs, i, pass);
  }

  /** One more line of the load loop: a line that is skipped adds nothing. */
  lemma LoadSkips(lines: seq<string>, i: nat, recs: seq<BugRecord>)
    requires i < |lines| && ParseLines(lines[..i]) == Ok(recs)
    requires ParseLine(lines[i]) == Skipped
    ensures ParseLines(lines[..i + 1]) == Ok(recs)
  {
    Grow(lines, i);
    ParseLinesSnoc(lines[..i], lines[i]);
  }

  /** One more line of the load loop: a parsed line adds its record, held
      by one more bug object. */
  lemma LoadKeeps(lines: seq<string>, i: nat, recs: seq<BugRecord>, b: BugRecord,
                  bugs: seq<Bug>, bug: Bug)
    requires i < |lines| && ParseLines(lines[..i]) == Ok(recs)
    requires ParseLine(lines[i]) == Parsed(b)
    requires Values(bugs) == recs && bug.Value() == b
    ensures ParseLines(lines[..i + 1]) == Ok(recs + [b])
    ensures Values(bugs + [bug]) == recs + [b]
  {
    Grow(lines, i);
    ParseLinesSnoc(lines[..i], lines[i]);
    ValuesSnoc(bugs, bug);
  }

  /** One more line of the load loop: a bad id fails the whole load. */
  lemma LoadAborts(lines: seq<string>, i: nat, recs: seq<BugRecord>, text: string)
    requires i < |lines| && ParseLines(lines[..i]) == Ok(recs)
    requires ParseLine(lines[i]) == BadId(text)
    ensures ParseLines(lines) == Err(IdNotANumber(text))
  {
    ParseLinesSnoc(lines[..i], lines[i]);
    ParseLinesAbort(lines[..i] + [lines[i]], lines[i + 1..]);
    CutAt(lines, i);
  }

  lemma ValuesSnoc(bugs: seq<Bug>, b: Bug)
    ensures Values(bugs + [b]) == Values(bugs) + [b.Value()]
  {
  }

  lemma ValuesWithout(bugs: seq<Bug>, k: nat)
    requires k < |bugs|
    ensures Values(bugs[..k] + bugs[k + 1..]) == Values(bugs)[..k] + Values(bugs)[k + 1..]
  {
    var rest := bugs[..k] + bugs[k + 1..];
    forall j | 0 <= j < |rest| ensures Values(rest)[j] == (Values(bugs)[..k] + Values(bugs)[k + 1..])[j] {
      if j < k {
        assert rest[j] == bugs[j];
      } else {
        assert rest[j] == bugs[j + 1];
      }
    }
  }

  /** A load that fails on one line fails whatever follows it. */
  lemma {:induction false} ParseLinesAbort(lines: seq<string>, more: seq<string>)
    requires ParseLines(lines).Err?
    ensures ParseLines(lines + more) == ParseLines(lines)
  {
    assert lines != [];
    assert (lines + more)[1..] == lines[1..] + more;
    if !ParseLine(lines[0]).BadId? {
      ParseLinesAbort(lines[1..], more);
    }
  }

  /** Changing one object of a list of distinct objects changes only its record. */
  lemma OneObjectChanged(bugs: seq<Bug>, i: nat, recs: seq<BugRecord>, changed: BugRecord)
    requires i < |bugs| == |recs|
    requires bugs[i].Value() == changed
    requires forall j :: 0 <= j < |bugs| && j != i ==> bugs[j].Value() == recs[j]
    ensures Values(bugs) == recs[i := changed]
  {
  }
}
