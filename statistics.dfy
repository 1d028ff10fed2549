/** The counts behind the statistics screens (`StatisticsManager`): bugs per
    status, per priority and per assignee, and the open count of the summary
    report.  The manager keeps no state, so its operations are methods that
    only read the bug objects they are given. */
module Statistics {
  import opened Outcomes
  import opened Strings
  import opened Enums
  import opened Lists
  import opened Bugs

  // ---------------------------------------------------------------------
  // Count maps
  // ---------------------------------------------------------------------

  /** `counts` has an entry for exactly the keys that occur, holding how
      often each occurs. */
  ghost predicate Represents(counts: map<string, int>, keys: multiset<string>) {
    (forall k :: k in counts <==> k in keys) &&
    (forall k :: k in counts ==> counts[k] == keys[k])
  }

  /** The sum of the values of a map. */
  ghost function SumValues(m: map<string, int>): int
    decreases |m.Keys|
  {
    if m == map[] then 0
    else
      var k :| k in m;
      m[k] + SumValues(m - {k})
  }

  /** The sum does not depend on which key is taken out first. */
  lemma {:induction false} SumValuesRemove(m: map<string, int>, k: string)
    requires k in m
    ensures SumValues(m) == m[k] + SumValues(m - {k})
    decreases |m.Keys|
  {
    var j :| j in m && SumValues(m) == m[j] + SumValues(m - {j});
    if j != k {
      var mj := m - {j};
      var mk := m - {k};
      assert |mj.Keys| < |m.Keys| && |mk.Keys| < |m.Keys| by {
        assert mj.Keys < m.Keys && mk.Keys < m.Keys;
      }
      SumValuesRemove(mj, k);
      SumValuesRemove(mk, j);
      assert mj - {k} == mk - {j};
    }
  }

  /** One `put(key, getOrDefault(key, 0) + 1)`. */
  function Bump(counts: map<string, int>, key: string): map<string, int> {
    counts[key := GetOrDefault(counts, key, 0) + 1]
  }

  /** Counting one more key keeps the map exact and adds one to its sum. */
  lemma BumpCounts(counts: map<string, int>, keys: multiset<string>, key: string)
    requires Represents(counts, keys)
    ensures Represents(Bump(counts, key), keys + multiset{key})
    ensures SumValues(Bump(counts, key)) == SumValues(counts) + 1
  {
    var b := Bump(counts, key);
    SumValuesRemove(b, key);
    assert b - {key} == counts - {key};
    if key in counts {
      SumValuesRemove(counts, key);
    } else {
      assert counts - {key} == counts;
    }
  }

  /** The map the counting loops build from a sequence of keys. */
  function Tally(keys: seq<string>): map<string, int> {
    if keys == [] then map[] else Bump(Tally(keys[..|keys| - 1]), keys[|keys| - 1])
  }

  /** One round of a counting loop. */
  lemma TallyGrow(counts: map<string, int>, keys: seq<string>, i: nat, key: string)
    requires i < |keys| && counts == Tally(keys[..i]) && key == keys[i]
    ensures counts[key := GetOrDefault(counts, key, 0) + 1] == Tally(keys[..i + 1])
  {
    PrefixOfGrow(keys, i);
  }

  /** The tally of the keys counts each key exactly, and its counts add up
      to the number of keys. */
  lemma {:induction false} TallyCounts(keys: seq<string>)
    ensures Represents(Tally(keys), multiset(keys))
    ensures SumValues(Tally(keys)) == |keys|
  {
    if keys != [] {
      var init := keys[..|keys| - 1];
      TallyCounts(init);
      BumpCounts(Tally(init), multiset(init), keys[|keys| - 1]);
      MultisetGrow(keys, |keys| - 1);
      TakeAll(keys);
    }
  }

  /** What the counting loops conclude once every key is counted. */
  lemma TallyOfAll(keys: seq<string>)
    ensures var counts := Tally(keys[..|keys|]);
            Represents(counts, multiset(keys)) && SumValues(counts) == |keys| &&
            (counts == map[] <==> keys == [])
  {
    TakeAll(keys);
    TallyCounts(keys);
    EmptyCounts(Tally(keys), multiset(keys));
  }

  /** An exact count map is empty exactly when nothing was counted. */
  lemma EmptyCounts(counts: map<string, int>, keys: multiset<string>)
    requires Represents(counts, keys)
    ensures counts == map[] <==> keys == multiset{}
  {
    if keys != multiset{} {
      var k :| k in keys;
      assert k in counts;
    }
    if counts != map[] {
      var k :| k in counts;
      assert k in keys;
    }
  }

  // ---------------------------------------------------------------------
  // The keys
  // ---------------------------------------------------------------------

  /** `bug.getStatus().name().toUpperCase()`. */
  function StatusKey(b: BugRecord): string {
    ToUpper(StatusName(b.status))
  }

  /** `bug.getPriority().name().toUpperCase()`. */
  function PriorityKey(b: BugRecord): string {
    ToUpper(PriorityName(b.priority))
  }

  /** `bug.getAssignedTo().toLowerCase()`. */
  function AssigneeKey(b: BugRecord): string {
    ToLower(b.assignedTo)
  }

  /** The number of records whose key is `v`. */
  function Having(key: BugRecord -> string, v: string): BugRecord -> bool {
    b => key(b) == v
  }

  /** How often a key occurs is how many records have it. */
  lemma {:induction false} KeyMultiplicity(bs: seq<BugRecord>, key: BugRecord -> string, v: string)
    ensures multiset(Map(bs, key))[v] == |Filter(bs, Having(key, v))|
  {
    if bs != [] {
      KeyMultiplicity(bs[1..], key, v);
      MapCons(bs[0], bs[1..], key);
      HeadTail(bs);
    }
  }

  /** Filters whose predicates agree give the same records. */
  lemma {:induction false} FilterSame(bs: seq<BugRecord>, p: BugRecord -> bool, q: BugRecord -> bool)
    requires forall b :: p(b) == q(b)
    ensures Filter(bs, p) == Filter(bs, q)
  {
    if bs != [] {
      FilterSame(bs[1..], p, q);
    }
  }

  /** The status key is the status name, so the count under a status's name
      is the number of bugs with that status. */
  lemma StatusKeyIsName(b: BugRecord, s: Status)
    ensures StatusKey(b) == StatusName(s) <==> b.status == s
  {
    NamesAreUpperCase(b.status, b.priority);
    NamesAndOrdinalsDistinct(b.status, s, b.priority, b.priority);
  }

  lemma PriorityKeyIsName(b: BugRecord, p: Priority)
    ensures PriorityKey(b) == PriorityName(p) <==> b.priority == p
  {
    NamesAreUpperCase(b.status, b.priority);
    NamesAndOrdinalsDistinct(b.status, b.status, b.priority, p);
  }

  function WithStatus(s: Status): BugRecord -> bool {
    (b: BugRecord) => b.status == s
  }

  function WithPriority(p: Priority): BugRecord -> bool {
    (b: BugRecord) => b.priority == p
  }

  /** In a count by status, the entry for a status's name is the number of
      bugs with that status; it is absent when there are none. */
  lemma StatusCountIsNumberWithStatus(bs: seq<BugRecord>, counts: map<string, int>, s: Status)
    requires Represents(counts, multiset(Map(bs, StatusKey)))
    ensures GetOrDefault(counts, StatusName(s), 0) == |Filter(bs, WithStatus(s))|
    ensures StatusName(s) in counts <==> Filter(bs, WithStatus(s)) != []
  {
    KeyMultiplicity(bs, StatusKey, StatusName(s));
    forall b ensures Having(StatusKey, StatusName(s))(b) == WithStatus(s)(b) {
      StatusKeyIsName(b, s);
    }
    FilterSame(bs, Having(StatusKey, StatusName(s)), WithStatus(s));
  }

  lemma PriorityCountIsNumberWithPriority(bs: seq<BugRecord>, counts: map<string, int>, p: Priority)
    requires Represents(counts, multiset(Map(bs, PriorityKey)))
    ensures GetOrDefault(counts, PriorityName(p), 0) == |Filter(bs, WithPriority(p))|
    ensures PriorityName(p) in counts <==> Filter(bs, WithPriority(p)) != []
  {
    KeyMultiplicity(bs, PriorityKey, PriorityName(p));
    forall b ensures Having(PriorityKey, PriorityName(p))(b) == WithPriority(p)(b) {
      PriorityKeyIsName(b, p);
    }
    FilterSame(bs, Having(PriorityKey, PriorityName(p)), WithPriority(p));
  }

  /** Two assignees share one count exactly when their names are equal
      ignoring case. */
  lemma AssigneeKeyIgnoresCase(a: BugRecord, b: BugRecord)
    ensures AssigneeKey(a) == AssigneeKey(b) <==> EqualsIgnoreCase(a.assignedTo, b.assignedTo)
  {
    LowerEqualIffEqualsIgnoreCase(a.assignedTo, b.assignedTo);
  }

  // ---------------------------------------------------------------------
  // The counting loops
  // ---------------------------------------------------------------------

  /** The loop of `showBugsCountByStatus`. */
  method CountByStatus(bugs: seq<Bug>) returns (counts: map<string, int>)
    ensures Represents(counts, multiset(Map(Values(bugs), StatusKey)))
    ensures SumValues(counts) == |bugs|
    ensures counts == map[] <==> bugs == []
  {
    ghost var keys := Map(Values(bugs), StatusKey);
    counts := map[];
    for i := 0 to |bugs|
      invariant counts == Tally(keys[..i])
    {
      var status := ToUpper(StatusName(bugs[i].status));
      assert status == keys[i];
      TallyGrow(counts, keys, i, status);
      counts := counts[status := GetOrDefault(counts, status, 0) + 1];
    }
    TallyOfAll(keys);
  }

  /** The loop of `showBugsCountByPriority`. */
  method CountByPriority(bugs: seq<Bug>) returns (counts: map<string, int>)
    ensures Represents(counts, multiset(Map(Values(bugs), PriorityKey)))
    ensures SumValues(counts) == |bugs|
    ensures counts == map[] <==> bugs == []
  {
    ghost var keys := Map(Values(bugs), PriorityKey);
    counts := map[];
    for i := 0 to |bugs|
      invariant counts == Tally(keys[..i])
    {
      var priority := ToUpper(PriorityName(bugs[i].priority));
      assert priority == keys[i];
      TallyGrow(counts, keys, i, priority);
      counts := counts[priority := GetOrDefault(counts, priority, 0) + 1];
    }
    TallyOfAll(keys);
  }

  /** The loop of `showBugsCountByAssignee`. */
  method CountByAssignee(bugs: seq<Bug>) returns (counts: map<string, int>)
    ensures Represents(counts, multiset(Map(Values(bugs), AssigneeKey)))
    ensures SumValues(counts) == |bugs|
    ensures counts == map[] <==> bugs == []
  {
    ghost var keys := Map(Values(bugs), AssigneeKey);
    counts := map[];
    for i := 0 to |bugs|
      invariant counts == Tally(keys[..i])
    {
      var assignee := ToLower(bugs[i].assignedTo);
      assert assignee == keys[i];
      TallyGrow(counts, keys, i, assignee);
      counts := counts[assignee := GetOrDefault(counts, assignee, 0) + 1];
    }
    TallyOfAll(keys);
  }

  // ---------------------------------------------------------------------
  // The summary report
  // ---------------------------------------------------------------------

  /** Open: the upper-cased status name is neither "RESOLVED" nor "CLOSED". */
  predicate IsOpen(b: BugRecord) {
    StatusKey(b) != "RESOLVED" && StatusKey(b) != "CLOSED"
  }

  /** The open bugs are those that are new or in progress. */
  lemma OpenMeansNewOrInProgress(b: BugRecord)
    ensures IsOpen(b) <==> b.status == New || b.status == InProgress
  {
    StatusKeyIsName(b, Resolved);
    StatusKeyIsName(b, Closed);
  }

  /** The total and the open count of `showSummaryReport`. */
  method SummaryCounts(bugs: seq<Bug>) returns (totalBugs: int, openCount: int)
    ensures totalBugs == |bugs|
    ensures openCount == |Filter(Values(bugs), IsOpen)|
    ensures 0 <= openCount <= totalBugs
  {
    ghost var bs := Values(bugs);
    totalBugs := |bugs|;
    openCount := 0;
    for i := 0 to |bugs|
      invariant openCount == |Filter(bs[..i], IsOpen)|
    {
      var status := ToUpper(StatusName(bugs[i].status));
      assert status == StatusKey(bs[i]);
      FilterStep(bs, i, IsOpen);
      if status != "RESOLVED" && status != "CLOSED" {
        openCount := openCount + 1;
      }
    }
    TakeAll(bs);
  }

  /** The open count agrees with the count by status: it is the number of
      new bugs plus the number of bugs in progress. */
  lemma {:induction false} OpenCountFromStatusCounts(bs: seq<BugRecord>)
    ensures |Filter(bs, IsOpen)| ==
            |Filter(bs, WithStatus(New))| + |Filter(bs, WithStatus(InProgress))|
  {
    if bs != [] {
      OpenCountFromStatusCounts(bs[1..]);
      OpenMeansNewOrInProgress(bs[0]);
    }
  }
}
