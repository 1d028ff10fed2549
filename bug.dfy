/** A bug report (`models.Bug`): a mutable object with one setter per field,
    an append-only comment list and a numbered rendering of the comments. */
module Bugs {
  import opened Outcomes
  import opened Strings
  import opened Enums

  /** The value a `Bug` object holds at one moment. */
  datatype BugRecord = BugRecord(
    id: int,
    title: string,
    description: string,
    status: Status,
    priority: Priority,
    assignedTo: string,
    comments: seq<string>)

  class Bug {
    const id: int
    var title: string
    var description: string
    var status: Status
    var priority: Priority
    var assignedTo: string
    var comments: seq<string>

    /** The record this object currently holds. */
    function Value(): (r: BugRecord)
      reads this
      ensures r.id == id && r.comments == comments
    {
      BugRecord(id, title, description, status, priority, assignedTo, comments)
    }

    /** The six-argument constructor: a bug without comments. */
    constructor (id: int, title: string, description: string, status: Status,
                 priority: Priority, assignedTo: string)
      ensures Value() == BugRecord(id, title, description, status, priority, assignedTo, [])
    {
      this.id := id;
      this.title := title;
      this.description := description;
      this.status := status;
      this.priority := priority;
      this.assignedTo := assignedTo;
      this.comments := [];
    }

    /** The seven-argument constructor; a `null` comment list becomes empty. */
    constructor WithComments(id: int, title: string, description: string, status: Status,
                             priority: Priority, assignedTo: string, comments: Option<seq<string>>)
      ensures Value() == BugRecord(id, title, description, status, priority, assignedTo,
                                   if comments.Some? then comments.value else [])
    {
      this.id := id;
      this.title := title;
      this.description := description;
      this.status := status;
      this.priority := priority;
      this.assignedTo := assignedTo;
      this.comments := if comments.Some? then comments.value else [];
    }

    method SetTitle(title: string)
      modifies this
      ensures Value() == old(Value()).(title := title)
    {
      this.title := title;
    }

    method SetDescription(description: string)
      modifies this
      ensures Value() == old(Value()).(description := description)
    {
      this.description := description;
    }

    method SetStatus(status: Status)
      modifies this
      ensures Value() == old(Value()).(status := status)
    {
      this.status := status;
    }

    method SetPriority(priority: Priority)
      modifies this
      ensures Value() == old(Value()).(priority := priority)
    {
      this.priority := priority;
    }

    method SetAssignedTo(assignedTo: string)
      modifies this
      ensures Value() == old(Value()).(assignedTo := assignedTo)
    {
      this.assignedTo := assignedTo;
    }

    /** Appends one comment at the end; earlier comments stay as they were. */
    method AddComment(comment: string)
      modifies this
      ensures Value() == old(Value()).(comments := old(comments) + [comment])
      ensures |comments| == |old(comments)| + 1 && comments[..|old(comments)|] == old(comments)
    {
      this.comments := this.comments + [comment];
      assert comments[..|old(comments)|] == old(comments);
    }

    /** `getCommentsAsString`: "No comments." for an empty list, otherwise the
        numbered comments, one per line, trimmed. */
    method CommentsAsString() returns (r: string)
      ensures comments == [] ==> r == "No comments."
      ensures comments != [] ==> r == Trim(Join(NumberedComments(comments), '\n'))
      ensures r == "No comments." <==> comments == []
    {
      if |comments| == 0 {
        return "No comments.";
      }
      var sb := "";
      for i := 0 to |comments|
        invariant i == 0 ==> sb == ""
        invariant i > 0 ==> sb == Join(NumberedComments(comments[..i]), '\n') + "\n"
      {
        var line := IntToString(i + 1) + ". " + comments[i];
        assert comments[..i + 1] == comments[..i] + [comments[i]];
        NumberedSnoc(comments[..i], comments[i]);
        if i > 0 {
          JoinSnoc(NumberedComments(comments[..i]), line, '\n');
        }
        sb := sb + line + "\n";
      }
      assert comments[..|comments|] == comments;
      TrimDropsTrailingSpace(Join(NumberedComments(comments), '\n'), '\n');
      RenderedCommentsStartWithOne(comments);
      r := Trim(sb);
    }
  }

  /** The line `getCommentsAsString` writes for the comment at index `i`. */
  function NumberedComment(i: nat, comment: string): string {
    IntToString(i + 1) + ". " + comment
  }

  function NumberedComments(cs: seq<string>): (lines: seq<string>)
    ensures |lines| == |cs|
    ensures forall i :: 0 <= i < |cs| ==> lines[i] == NumberedComment(i, cs[i])
  {
    seq(|cs|, i requires 0 <= i < |cs| => NumberedComment(i, cs[i]))
  }

  lemma NumberedSnoc(cs: seq<string>, c: string)
    ensures NumberedComments(cs + [c]) == NumberedComments(cs) + [NumberedComment(|cs|, c)]
  {
  }

  lemma {:induction false} JoinSnoc(parts: seq<string>, last: string, d: char)
    requires parts != []
    ensures Join(parts + [last], d) == Join(parts, d) + [d] + last
  {
    if |parts| == 1 {
      assert (parts + [last])[1..] == [last];
    } else {
      assert (parts + [last])[1..] == parts[1..] + [last];
      JoinSnoc(parts[1..], last, d);
    }
  }

  /** The rendering is "No comments." exactly when there are no comments:
      otherwise it starts with the digit 1 of the first line's number. */
  lemma {:induction false} RenderedCommentsStartWithOne(cs: seq<string>)
    requires cs != []
    ensures Trim(Join(NumberedComments(cs), '\n')) != "No comments."
    ensures Trim(Join(NumberedComments(cs), '\n')) != []
    ensures Trim(Join(NumberedComments(cs), '\n'))[0] == '1'
  {
    var lines := NumberedComments(cs);
    var joined := Join(lines, '\n');
    assert IntToString(1) == "1";
    assert lines[0] == "1" + ". " + cs[0];
    assert joined[0] == '1' by {
      if |lines| > 1 {
        assert joined == lines[0] + ['\n'] + Join(lines[1..], '\n');
      }
    }
    TrimKeepsFirst(joined);
  }

  /** The record view of a list of bug objects. */
  function Values(bugs: seq<Bug>): (rs: seq<BugRecord>)
    reads bugs
    ensures |rs| == |bugs|
    ensures forall i :: 0 <= i < |bugs| ==> rs[i] == bugs[i].Value()
  {
    seq(|bugs|, i reads bugs requires 0 <= i < |bugs| => bugs[i].Value())
  }
}
