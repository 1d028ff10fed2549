/** The text format of the bug file (`BugManager.loadBugs` / `saveBugs`):
    one record per line, `id,title,description,STATUS,PRIORITY,assignedTo,c1|c2|...`,
    with no quoting or escaping of any kind.  Here the format is given as a
    pair of pure functions, and the lemmas say when saving and loading are
    inverse and how they fail to be. */
module BugFormat {
  import opened Outcomes
  import opened Strings
  import opened Enums
  import opened Lists
  import opened Bugs

  /** `Integer.parseInt` threw on the id field of a seven-field line.  The
      exception is unchecked, so it escapes `loadBugs` and every caller. */
  datatype LoadError = IdNotANumber(text: string)

  // ---------------------------------------------------------------------
  // Enumeration lookups (`stringToStatus`, `stringToPriority`)
  // ---------------------------------------------------------------------

  /** `stringToStatus`: the constant named by the upper-cased text, or none. */
  function StringToStatus(text: string): (r: Option<Status>)
    ensures r.Some? ==> StatusName(r.value) == ToUpper(text)
    ensures r.None? <==> forall s: Status :: StatusName(s) != ToUpper(text)
  {
    StatusValueOf(ToUpper(text))
  }

  /** `stringToPriority`: the constant named by the upper-cased text, or none. */
  function StringToPriority(text: string): (r: Option<Priority>)
    ensures r.Some? ==> PriorityName(r.value) == ToUpper(text)
    ensures r.None? <==> forall p: Priority :: PriorityName(p) != ToUpper(text)
  {
    PriorityValueOf(ToUpper(text))
  }

  /** The lookup with the default that loading and field updates apply. */
  function StatusOrDefault(text: string): (s: Status)
    ensures StringToStatus(text).Some? ==> s == StringToStatus(text).value
    ensures StringToStatus(text).None? ==> s == New
  {
    match StringToStatus(text)
    case Some(s) => s
    case None => New
  }

  function PriorityOrDefault(text: string): (p: Priority)
    ensures StringToPriority(text).Some? ==> p == StringToPriority(text).value
    ensures StringToPriority(text).None? ==> p == Low
  {
    match StringToPriority(text)
    case Some(p) => p
    case None => Low
  }

  /** A constant's own name, in any case, is recognised. */
  lemma StringToStatusOfName(s: Status, p: Priority)
    ensures StringToStatus(StatusName(s)) == Some(s)
    ensures StringToPriority(PriorityName(p)) == Some(p)
    ensures StringToStatus(ToLower(StatusName(s))) == Some(s)
    ensures StringToPriority(ToLower(PriorityName(p))) == Some(p)
  {
    NamesAreUpperCase(s, p);
    var lower := ToLower(StatusName(s));
    assert ToUpper(lower) == StatusName(s) by {
      forall i | 0 <= i < |lower| ensures ToUpper(lower)[i] == StatusName(s)[i] {
        assert UpperChar(LowerChar(StatusName(s)[i])) == StatusName(s)[i];
      }
    }
    var lowerP := ToLower(PriorityName(p));
    assert ToUpper(lowerP) == PriorityName(p) by {
      forall i | 0 <= i < |lowerP| ensures ToUpper(lowerP)[i] == PriorityName(p)[i] {
        assert UpperChar(LowerChar(PriorityName(p)[i])) == PriorityName(p)[i];
      }
    }
    NamesAndOrdinalsDistinct(s, s, p, p);
  }

  // ---------------------------------------------------------------------
  // Lines (`BufferedReader.readLine`)
  // ---------------------------------------------------------------------

  const LineBreaks: set<char> := {'\n', '\r'}

  /** The lines `readLine` returns: each ends at "\n", "\r" or "\r\n"; the
      last line needs no terminator, and a final terminator adds no line. */
  function Lines(s: string): seq<string>
    decreases |s|
  {
    if s == [] then []
    else
      var k := IndexOfAny(s, LineBreaks);
      if k == |s| then [s]
      else if s[k] == '\r' && k + 1 < |s| && s[k + 1] == '\n' then [s[..k]] + Lines(s[k + 2..])
      else [s[..k]] + Lines(s[k + 1..])
  }

  predicate NoLineBreak(s: string) {
    Free(s, '\n') && Free(s, '\r')
  }

  lemma {:induction false} LinesCons(line: string, rest: string)
    requires NoLineBreak(line)
    ensures Lines(line + "\n" + rest) == [line] + Lines(rest)
  {
    var s := line + "\n" + rest;
    IndexOfAnyAfter(line, "\n" + rest, LineBreaks);
    assert s == line + ("\n" + rest);
    assert IndexOfAny(s, LineBreaks) == |line|;
    assert s[..|line|] == line;
    assert s[|line| + 1..] == rest;
  }

  // ---------------------------------------------------------------------
  // One record per line
  // ---------------------------------------------------------------------

  /** The seven fields `saveBugs` writes, in order. */
  function FieldsOf(b: BugRecord): (fields: seq<string>)
    ensures |fields| == 7
  {
    [IntToString(b.id), b.title, b.description, StatusName(b.status),
     PriorityName(b.priority), b.assignedTo, Join(b.comments, '|')]
  }

  /** The line `saveBugs` writes for one bug, without its line feed. */
  function FormatLine(b: BugRecord): string {
    Join(FieldsOf(b), ',')
  }

  /** The whole file `saveBugs` writes: each line followed by "\n". */
  function Serialize(bugs: seq<BugRecord>): string {
    if bugs == [] then "" else FormatLine(bugs[0]) + "\n" + Serialize(bugs[1..])
  }

  /** The comments field: trimmed, then nothing if empty, else split on `|`
      with Java's dropping of trailing empty pieces. */
  function ParseComments(field: string): seq<string> {
    var t := Trim(field);
    if t == [] then [] else JavaSplit(t, '|')
  }

  datatype LineOutcome = Skipped | BadId(text: string) | Parsed(bug: BugRecord)

  /** What `loadBugs` makes of one line. */
  function ParseLine(line: string): LineOutcome {
    var parts := SplitAll(line, ',');
    if |parts| != 7 then Skipped
    else
      match ParseInt(parts[0])
      case None => BadId(parts[0])
      case Some(id) =>
        Parsed(BugRecord(id, parts[1], parts[2], StatusOrDefault(parts[3]),
                         PriorityOrDefault(parts[4]), parts[5], ParseComments(parts[6])))
  }

  /** A line is skipped exactly when it does not hold exactly six commas. */
  lemma SkippedByCommaCount(line: string)
    ensures ParseLine(line).Skipped? <==> multiset(line)[','] != 6
  {
    SplitAllCount(line, ',');
  }

  /** On a line with six commas the id is the text before the first comma:
      the line fails, reporting that text, exactly when it is not a number,
      and otherwise the record's id is its value. */
  lemma IdIsTextBeforeFirstComma(idText: string, rest: string)
    requires Free(idText, ',') && multiset(rest)[','] == 5
    ensures var r := ParseLine(idText + [','] + rest);
            (r.BadId? <==> ParseInt(idText).None?) &&
            (r.BadId? ==> r.text == idText) &&
            (r.Parsed? ==> Some(r.bug.id) == ParseInt(idText))
  {
    var parts := SplitAll(idText + [','] + rest, ',');
    assert parts == [idText] + SplitAll(rest, ',') by {
      FirstFieldSplit(idText, rest);
    }
    SplitAllCount(rest, ',');
    assert |parts| == 7 && parts[0] == idText;
  }

  lemma FirstFieldSplit(idText: string, rest: string)
    requires Free(idText, ',')
    ensures SplitAll(idText + [','] + rest, ',') == [idText] + SplitAll(rest, ',')
  {
    var line := idText + [','] + rest;
    var k := |idText|;
    assert line[..k] == idText && line[k + 1..] == rest;
    SplitAllAt(line, ',', k);
  }

  /** The records of a sequence of lines, in line order; the first seven-field
      line with a bad id aborts the whole load. */
  function ParseLines(lines: seq<string>): Result<seq<BugRecord>, LoadError> {
    if lines == [] then Ok([])
    else
      match ParseLine(lines[0])
      case Skipped => ParseLines(lines[1..])
      case BadId(t) => Err(IdNotANumber(t))
      case Parsed(b) =>
        match ParseLines(lines[1..])
        case Err(e) => Err(e)
        case Ok(rest) => Ok([b] + rest)
  }

  /** `loadBugs` on the backing file; `None` is a file that does not exist. */
  function ParseMedium(medium: Option<string>): Result<seq<BugRecord>, LoadError> {
    if medium.None? then Ok([]) else ParseLines(Lines(medium.value))
  }

  /** Loading line by line: the records of one more line go at the end. */
  lemma {:induction false} ParseLinesSnoc(lines: seq<string>, line: string)
    ensures ParseLines(lines + [line]) ==
      match ParseLines(lines)
      case Err(e) => Err(e)
      case Ok(bs) =>
        match ParseLine(line)
        case Skipped => Ok(bs)
        case BadId(t) => Err(IdNotANumber(t))
        case Parsed(b) => Ok(bs + [b])
  {
    if lines == [] {
      assert lines + [line] == [line];
      assert [line][1..] == [];
      match ParseLine(line)
      case Skipped =>
      case BadId(t) =>
      case Parsed(b) =>
        assert [b] + [] == [] + [b];
    } else {
      assert (lines + [line])[1..] == lines[1..] + [line];
      ParseLinesSnoc(lines[1..], line);
      match ParseLine(lines[0])
      case Skipped =>
      case BadId(t) =>
      case Parsed(b) =>
        match ParseLines(lines[1..])
        case Err(e) =>
        case Ok(rest) =>
          match ParseLine(line)
          case Skipped =>
          case BadId(t) =>
          case Parsed(c) =>
            assert [b] + (rest + [c]) == ([b] + rest) + [c];
    }
  }

  predicate Kept(line: string) {
    |SplitAll(line, ',')| == 7
  }

  /** A successful load holds one record per seven-field line, in file order,
      each the parse of its line; every other line contributes nothing. */
  lemma LoadedRecordsAreKeptLines(lines: seq<string>)
    requires ParseLines(lines).Ok?
    ensures |ParseLines(lines).value| == |Filter(lines, Kept)|
    ensures forall i :: 0 <= i < |Filter(lines, Kept)| ==>
              ParseLine(Filter(lines, Kept)[i]) == Parsed(ParseLines(lines).value[i])
  {
    var kept := Filter(lines, Kept);
    var recs := ParseLines(lines).value;
    KeptLinesParse(lines);
    forall i | 0 <= i < |kept| ensures ParseLine(kept[i]) == Parsed(recs[i]) {
      assert Map(kept, ParseLine)[i] == Map(recs, AsParsed)[i];
    }
  }

  function AsParsed(b: BugRecord): LineOutcome {
    Parsed(b)
  }

  lemma {:induction false} KeptLinesParse(lines: seq<string>)
    requires ParseLines(lines).Ok?
    ensures Map(Filter(lines, Kept), ParseLine) == Map(ParseLines(lines).value, AsParsed)
  {
    if lines != [] {
      KeptLinesParse(lines[1..]);
      var kept := Filter(lines[1..], Kept);
      var rest := ParseLines(lines[1..]).value;
      var o := ParseLine(lines[0]);
      if o.Parsed? {
        assert Filter(lines, Kept) == [lines[0]] + kept;
        assert ParseLines(lines).value == [o.bug] + rest;
        MapCons(lines[0], kept, ParseLine);
        MapCons(o.bug, rest, AsParsed);
      } else {
        assert Filter(lines, Kept) == kept;
        assert ParseLines(lines) == ParseLines(lines[1..]);
      }
    }
  }

  /** The load fails exactly when some seven-field line has an id that is not
      a number, and then it reports the first such line. */
  lemma LoadFailsOnBadId(lines: seq<string>)
    ensures ParseLines(lines).Err? <==> exists i :: 0 <= i < |lines| && ParseLine(lines[i]).BadId?
    ensures ParseLines(lines).Err? ==>
              exists i :: 0 <= i < |lines| && ParseLine(lines[i]).BadId? &&
                          ParseLines(lines).error == IdNotANumber(ParseLine(lines[i]).text) &&
                          forall j :: 0 <= j < i ==> !ParseLine(lines[j]).BadId?
  {
    if ParseLines(lines).Err? {
      var i := FirstBadId(lines);
    }
    if exists i :: 0 <= i < |lines| && ParseLine(lines[i]).BadId? {
      var i :| 0 <= i < |lines| && ParseLine(lines[i]).BadId?;
      BadIdFails(lines, i);
    }
  }

  /** The line whose bad id a failed load reports. */
  lemma {:induction false} FirstBadId(lines: seq<string>) returns (i: nat)
    requires ParseLines(lines).Err?
    ensures i < |lines| && ParseLine(lines[i]).BadId?
    ensures ParseLines(lines).error == IdNotANumber(ParseLine(lines[i]).text)
    ensures forall j :: 0 <= j < i ==> !ParseLine(lines[j]).BadId?
  {
    if ParseLine(lines[0]).BadId? {
      i := 0;
    } else {
      assert ParseLines(lines).error == ParseLines(lines[1..]).error;
      var k := FirstBadId(lines[1..]);
      i := k + 1;
      TailIndex(lines);
    }
  }

  /** Any line with a bad id fails the load. */
  lemma {:induction false} BadIdFails(lines: seq<string>, i: nat)
    requires i < |lines| && ParseLine(lines[i]).BadId?
    ensures ParseLines(lines).Err?
    decreases i
  {
    if i > 0 && !ParseLine(lines[0]).BadId? {
      TailIndex(lines);
      BadIdFails(lines[1..], i - 1);
    }
  }

  // ---------------------------------------------------------------------
  // When saving then loading gives back the records
  // ---------------------------------------------------------------------

  /** No comma and no line break: the field survives the comma split. */
  predicate CleanText(t: string) {
    Free(t, ',') && NoLineBreak(t)
  }

  /** A record the format stores faithfully. */
  predicate Storable(b: BugRecord) {
    InIntRange(b.id) &&
    CleanText(b.title) && CleanText(b.description) && CleanText(b.assignedTo) &&
    (forall i :: 0 <= i < |b.comments| ==> CleanText(b.comments[i]) && Free(b.comments[i], '|')) &&
    (b.comments == [] || b.comments[|b.comments| - 1] != "") &&
    IsTrimmed(Join(b.comments, '|'))
  }

  lemma {:induction false} JoinFree(parts: seq<string>, d: char, c: char)
    requires d != c
    requires forall i :: 0 <= i < |parts| ==> Free(parts[i], c)
    ensures Free(Join(parts, d), c)
  {
    if |parts| > 1 {
      JoinFree(parts[1..], d, c);
    }
  }

  lemma {:induction false} JoinNotFree(parts: seq<string>, d: char, c: char, i: nat)
    requires i < |parts| && !Free(parts[i], c)
    ensures !Free(Join(parts, d), c)
  {
    if |parts| > 1 {
      var rest := Join(parts[1..], d);
      assert Join(parts, d) == parts[0] + [d] + rest;
      if i == 0 {
        var j :| 0 <= j < |parts[0]| && parts[0][j] == c;
        assert Join(parts, d)[j] == c;
      } else {
        JoinNotFree(parts[1..], d, c, i - 1);
        var j :| 0 <= j < |rest| && rest[j] == c;
        assert Join(parts, d)[|parts[0]| + 1 + j] == c;
      }
    }
  }

  lemma NamesAreClean(s: Status, p: Priority)
    ensures CleanText(StatusName(s)) && CleanText(PriorityName(p))
  {
  }

  lemma IdIsClean(n: int)
    ensures CleanText(IntToString(n))
  {
    IntToStringChars(n);
  }

  /** The conditions under which the fields of a line come back unchanged:
      the text fields and comments hold no comma or line break. */
  predicate LineSafe(b: BugRecord) {
    InIntRange(b.id) &&
    CleanText(b.title) && CleanText(b.description) && CleanText(b.assignedTo) &&
    (forall i :: 0 <= i < |b.comments| ==> CleanText(b.comments[i]))
  }

  lemma FieldsAreClean(b: BugRecord)
    requires LineSafe(b)
    ensures forall i :: 0 <= i < 7 ==> CleanText(FieldsOf(b)[i])
    ensures NoLineBreak(FormatLine(b))
  {
    IdIsClean(b.id);
    NamesAreClean(b.status, b.priority);
    JoinFree(b.comments, '|', ',');
    JoinFree(b.comments, '|', '\n');
    JoinFree(b.comments, '|', '\r');
    JoinFree(FieldsOf(b), ',', '\n');
    JoinFree(FieldsOf(b), ',', '\r');
  }

  /** A line written for a record parses back to the record, except that its
      comments go through the comments field's own parse. */
  lemma ParseFormatLine(b: BugRecord)
    requires LineSafe(b)
    ensures ParseLine(FormatLine(b)) ==
              Parsed(b.(comments := ParseComments(Join(b.comments, '|'))))
  {
    FieldsAreClean(b);
    SplitJoin(FieldsOf(b), ',');
    ParseIntToString(b.id);
    StringToStatusOfName(b.status, b.priority);
  }

  /** The comments come back unchanged when none holds `|`, the last one is
      not empty, and trimming does not change their joined text. */
  lemma ParseJoinedComments(cs: seq<string>)
    requires forall i :: 0 <= i < |cs| ==> Free(cs[i], '|')
    requires cs == [] || cs[|cs| - 1] != ""
    requires IsTrimmed(Join(cs, '|'))
    ensures ParseComments(Join(cs, '|')) == cs
  {
    var j := Join(cs, '|');
    TrimOfTrimmed(j);
    assert Trim(j) == j;
    if cs != [] {
      JoinEndsWithLast(cs, '|');
      assert j != [];
      if |cs| == 1 {
        assert j == cs[0];
        assert JavaSplit(j, '|') == [j];
      } else {
        JoinOfManyHasDelimiter(cs, '|');
        SplitJoin(cs, '|');
        assert JavaSplit(j, '|') == DropTrailingEmpty(cs);
      }
    }
  }

  lemma JoinEndsWithLast(cs: seq<string>, d: char)
    requires cs != []
    ensures |Join(cs, d)| >= |cs[|cs| - 1]|
  {
    if |cs| > 1 {
      JoinSnoc(cs[..|cs| - 1], cs[|cs| - 1], d);
      assert cs[..|cs| - 1] + [cs[|cs| - 1]] == cs;
    }
  }

  lemma JoinOfManyHasDelimiter(cs: seq<string>, d: char)
    requires |cs| >= 2
    ensures !Free(Join(cs, d), d)
  {
    var j := Join(cs, d);
    assert j == cs[0] + [d] + Join(cs[1..], d);
    assert j[|cs[0]|] == d;
  }

  /** Record by record: a storable record survives its own line. */
  lemma StorableLineRoundTrip(b: BugRecord)
    requires Storable(b)
    ensures ParseLine(FormatLine(b)) == Parsed(b)
  {
    ParseFormatLine(b);
    ParseJoinedComments(b.comments);
  }

  /** Save then load is the identity on storable records. */
  lemma {:induction false} SaveThenLoad(bugs: seq<BugRecord>)
    requires forall i :: 0 <= i < |bugs| ==> Storable(bugs[i])
    ensures ParseMedium(Some(Serialize(bugs))) == Ok(bugs)
  {
    SaveThenLoadLines(bugs);
  }

  lemma {:induction false} SaveThenLoadLines(bugs: seq<BugRecord>)
    requires forall i :: 0 <= i < |bugs| ==> Storable(bugs[i])
    ensures ParseLines(Lines(Serialize(bugs))) == Ok(bugs)
  {
    if bugs != [] {
      var line := FormatLine(bugs[0]);
      FieldsAreClean(bugs[0]);
      LinesCons(line, Serialize(bugs[1..]));
      StorableLineRoundTrip(bugs[0]);
      SaveThenLoadLines(bugs[1..]);
      ParseLinesCons(line, Lines(Serialize(bugs[1..])), bugs[0]);
      HeadTail(bugs);
    }
  }

  lemma ParseLinesCons(line: string, lines: seq<string>, b: BugRecord)
    requires ParseLine(line) == Parsed(b) && ParseLines(lines).Ok?
    ensures ParseLines([line] + lines) == Ok([b] + ParseLines(lines).value)
  {
    ConsParts(line, lines);
  }

  // ---------------------------------------------------------------------
  // Where saving then loading loses data
  // ---------------------------------------------------------------------

  /** A comma in any text field or comment gives the line more than seven
      fields, so the record disappears on the next load. */
  lemma CommaLosesRecord(b: BugRecord)
    requires !Free(b.title, ',') || !Free(b.description, ',') || !Free(b.assignedTo, ',') ||
             exists i :: 0 <= i < |b.comments| && !Free(b.comments[i], ',')
    ensures ParseLine(FormatLine(b)) == Skipped
  {
    var fields := FieldsOf(b);
    if exists i :: 0 <= i < |b.comments| && !Free(b.comments[i], ',') {
      var i :| 0 <= i < |b.comments| && !Free(b.comments[i], ',');
      JoinNotFree(b.comments, '|', ',', i);
      assert !Free(fields[6], ',');
    } else if !Free(b.title, ',') {
      assert !Free(fields[1], ',');
    } else if !Free(b.description, ',') {
      assert !Free(fields[2], ',');
    } else {
      assert !Free(fields[5], ',');
    }
    SplitJoinCount(fields, ',');
  }

  /** A comment that comes back as it is when stored alone: not empty, no
      `|`, no space at either end. */
  predicate Plain(x: string) {
    x != [] && Free(x, '|') && IsTrimmed(x)
  }

  /** An empty field and a lone `|` give no comments. */
  lemma CommentsOfEmptyField()
    ensures ParseComments("") == []
  {
  }

  lemma CommentsOfLoneBar()
    ensures ParseComments("|") == []
  {
    var s := "|";
    TrimOfTrimmed(s);
    assert !Free(s, '|') by { assert s[0] == '|'; }
    SplitAllAt(s, '|', 0);
    assert s[..0] == "" && s[1..] == "";
    SplitAllOfFree("", '|');
    var parts := SplitAll(s, '|');
    assert |parts| == 2 && parts[0] == "" && parts[1] == "";
    assert |parts[..1]| == 1 && parts[..1][0] == "";
    assert parts[..1][..0] == [];
  }

  /** An empty piece between two comments stays. */
  lemma InnerEmptyCommentKept(x: string, y: string)
    requires Plain(x) && Plain(y)
    ensures ParseComments(x + "||" + y) == [x, "", y]
  {
    var cs := [x, "", y];
    assert cs[1..] == ["", y] && cs[1..][1..] == [y];
    var j := Join(cs, '|');
    assert Join(cs[1..], '|') == "" + ['|'] + Join([y], '|');
    assert j == x + ['|'] + ("" + ['|'] + y);
    assert j == x + "||" + y;
    assert j[0] == x[0] && j[|j| - 1] == y[|y| - 1];
    ParseJoinedComments(cs);
  }

  /** An empty last comment does not come back: the trailing empty piece is
      dropped by the split. */
  lemma TrailingEmptyCommentDropped(cs: seq<string>)
    requires cs != [] && cs[|cs| - 1] != ""
    requires forall i :: 0 <= i < |cs| ==> Free(cs[i], '|')
    requires IsTrimmed(Join(cs, '|'))
    ensures ParseComments(Join(cs + [""], '|')) == cs
  {
    var j := Join(cs, '|');
    JoinEndsWithLast(cs, '|');
    JoinSnoc(cs, "", '|');
    assert Join(cs + [""], '|') == j + "|";
    BarEndedTrimmed(j);
    FreeSnocEmpty(cs, '|');
    SplitJoin(cs + [""], '|');
    DropOneTrailingEmpty(cs);
  }

  lemma BarEndedTrimmed(j: string)
    requires j != [] && IsTrimmed(j)
    ensures Trim(j + "|") == j + "|" && !Free(j + "|", '|')
  {
    var s := j + "|";
    assert s[0] == j[0] && s[|s| - 1] == '|';
    TrimOfTrimmed(s);
  }

  lemma FreeSnocEmpty(cs: seq<string>, d: char)
    requires forall i :: 0 <= i < |cs| ==> Free(cs[i], d)
    ensures forall i :: 0 <= i < |cs + [""]| ==> Free((cs + [""])[i], d)
  {
  }

  lemma DropOneTrailingEmpty(cs: seq<string>)
    requires cs == [] || cs[|cs| - 1] != ""
    ensures DropTrailingEmpty(cs + [""]) == cs
  {
    assert (cs + [""])[..|cs|] == cs;
  }

  /** Spaces around the field, and so around a lone comment, are trimmed away. */
  lemma SpacesAroundCommentDropped(w: string, x: string, v: string)
    requires Plain(x)
    requires forall i :: 0 <= i < |w| ==> IsSpace(w[i])
    requires forall i :: 0 <= i < |v| ==> IsSpace(v[i])
    ensures ParseComments(w + x + v) == [x]
  {
    TrimEndSpaces(w + x, v);
    TrimStartSpaces(w, x);
    assert TrimStart(x) == x;
    TrimOfTrimmed(x);
  }

  /** A comment holding `|` comes back as two comments. */
  lemma BarInCommentSplits(x: string, y: string)
    requires Plain(x) && Plain(y)
    ensures ParseComments(Join([x + "|" + y], '|')) == [x, y]
  {
    var cs := [x, y];
    assert cs[1..] == [y];
    var j := Join(cs, '|');
    assert j == x + ['|'] + Join([y], '|');
    assert j == x + "|" + y;
    assert j[0] == x[0] && j[|j| - 1] == y[|y| - 1];
    ParseJoinedComments(cs);
  }

  /** Even a record read from a file need not survive a save and reload: the
      field `x|w|` with `w` blank loads as `[x, w]`, which saves as `x|w`,
      which reloads as `[x]`. */
  lemma BlankCommentLostOnResave(x: string, w: string)
    requires Plain(x)
    requires w != [] && forall i :: 0 <= i < |w| ==> IsSpace(w[i])
    ensures ParseComments(x + "|" + w + "|") == [x, w]
    ensures ParseComments(Join([x, w], '|')) == [x]
  {
    BlankCommentLoaded(x, w);
    BlankCommentResaved(x, w);
  }

  lemma BlankCommentLoaded(x: string, w: string)
    requires Plain(x)
    requires w != [] && forall i :: 0 <= i < |w| ==> IsSpace(w[i])
    ensures ParseComments(x + "|" + w + "|") == [x, w]
  {
    var parts := [x, w, ""];
    assert parts[1..] == [w, ""] && parts[1..][1..] == [""];
    var s := Join(parts, '|');
    assert Join(parts[1..], '|') == w + ['|'] + Join([""], '|');
    assert s == x + ['|'] + (w + ['|'] + "");
    assert s == x + "|" + w + "|";
    assert s[0] == x[0] && s[|s| - 1] == '|';
    TrimOfTrimmed(s);
    assert !Free(s, '|') by { assert s[|x|] == '|'; }
    assert Free(w, '|');
    SplitJoin(parts, '|');
    assert parts[..2] == [x, w];
  }

  lemma BlankCommentResaved(x: string, w: string)
    requires Plain(x)
    requires w != [] && forall i :: 0 <= i < |w| ==> IsSpace(w[i])
    ensures ParseComments(Join([x, w], '|')) == [x]
  {
    assert [x, w][1..] == [w];
    assert Join([x, w], '|') == (x + "|") + w;
    TrimEndSpaces(x + "|", w);
    assert Join([x, ""], '|') == x + "|" by { assert [x, ""][1..] == [""]; }
    assert [x] + [""] == [x, ""];
    TrailingEmptyCommentDropped([x]);
    var s := x + "|";
    assert s[0] == x[0] && s[|s| - 1] == '|';
    TrimOfTrimmed(s);
  }

  /** A file with one well-formed line and one line of five fields loads as
      the one record. */
  lemma MalformedLineSkipped(b: BugRecord, junk: string)
    requires Storable(b)
    requires NoLineBreak(junk) && |SplitAll(junk, ',')| == 5
    ensures ParseMedium(Some(FormatLine(b) + "\n" + junk + "\n")) == Ok([b])
  {
    var line := FormatLine(b);
    FieldsAreClean(b);
    TwoLines(line, junk);
    StorableLineRoundTrip(b);
    ParseKeptThenSkipped(line, junk, b);
  }

  lemma TwoLines(l1: string, l2: string)
    requires NoLineBreak(l1) && NoLineBreak(l2)
    ensures Lines(l1 + "\n" + l2 + "\n") == [l1, l2]
  {
    assert l1 + "\n" + l2 + "\n" == l1 + "\n" + (l2 + "\n");
    LinesCons(l1, l2 + "\n");
    LinesCons(l2, "");
    assert l2 + "\n" + "" == l2 + "\n";
  }

  lemma ParseKeptThenSkipped(l1: string, l2: string, b: BugRecord)
    requires ParseLine(l1) == Parsed(b) && ParseLine(l2) == Skipped
    ensures ParseLines([l1, l2]) == Ok([b])
  {
    assert [l1, l2][1..] == [l2];
    assert [l2][1..] == [];
    assert ParseLines([l2]) == Ok([]);
    assert [b] + [] == [b];
  }
}
