/** The thread normaliser of the class RedditData: every comment of a
    submission becomes one wide row (the submission's fields followed by the
    comment's), the wide table of all subreddits is reshaped into one long
    table of submission and comment records, the bodies are cleaned, and each
    record is tagged with the tickers its body mentions, one row per ticker. */
module RedditData {
  import opened Collections
  import opened Frames
  import Text

  /** A comment as the forum client gives it; `createdUtc` is in epoch seconds. */
  datatype Comment = Comment(author: string, body: string, createdUtc: int, id: string, score: int)

  /** A submission with the resolved, flattened (breadth-first) list of its comments. */
  datatype Submission = Submission(title: string, author: string, selftext: string, score: int,
                                   id: string, createdUtc: int, comments: seq<Comment>)

  const INITIAL_COL_NAMES: seq<string> := [
    "submission_title", "submission_author", "submission_body", "submission_score",
    "submission_id", "submission_datetime", "comment_author", "comment_body",
    "comment_datetime", "comment_id", "comment_score"]

  const COMMENT_COLUMNS: seq<string> := [
    "submission_title", "submission_id", "comment_author", "comment_body",
    "comment_datetime", "comment_id", "comment_score"]

  /** Asks for "submission_id" twice: once as the thread id, once as the record id. */
  const SUBMISSION_COLUMNS: seq<string> := [
    "submission_title", "submission_id", "submission_author", "submission_body",
    "submission_datetime", "submission_id", "submission_score"]

  const FINAL_COL_NAMES: seq<string> := [
    "submission_title", "submission_id", "author", "body", "datetime", "id", "score", "type"]

  /** Position of "body" in the final header. */
  const BODY: nat := 3

  /** The header of the table `create_data` collects: it starts from the final
      names and every append adds the wide names it lacks. */
  const COLLECTED_COLUMNS: seq<string> := Union(FINAL_COL_NAMES, INITIAL_COL_NAMES)

  lemma InitialHeader()
    ensures NoDuplicates(INITIAL_COL_NAMES)
  {
  }

  lemma FinalHeader()
    ensures NoDuplicates(FINAL_COL_NAMES) && FINAL_COL_NAMES[BODY] == "body"
    ensures "ticker" !in FINAL_COL_NAMES && NoDuplicates(FINAL_COL_NAMES + ["ticker"])
  {
  }

  /** Both parts of the long table get "type" as a new, ninth column. */
  lemma TypeIsNew()
    ensures "type" !in COMMENT_COLUMNS && "type" !in SUBMISSION_COLUMNS
    ensures |COMMENT_COLUMNS| + 1 == |FINAL_COL_NAMES| == |SUBMISSION_COLUMNS| + 1
  {
  }

  /** The collected header has no repeated name and holds every wide name. */
  lemma CollectedHeader()
    ensures NoDuplicates(COLLECTED_COLUMNS)
    ensures forall k | 0 <= k < |INITIAL_COL_NAMES| :: INITIAL_COL_NAMES[k] in COLLECTED_COLUMNS
    ensures Union(COLLECTED_COLUMNS, INITIAL_COL_NAMES) == COLLECTED_COLUMNS
  {
    InitialHeader();
    FinalHeader();
    UnionNoDuplicates(FINAL_COL_NAMES, INITIAL_COL_NAMES);
    UnionCovered(COLLECTED_COLUMNS, INITIAL_COL_NAMES);
  }

  // ---------------------------------------------------------------------
  // Wide rows

  /** `save_comment`: the comment's author, body, formatted time, id and score. */
  function SaveComment(c: Comment, datetimeStr: int -> string): seq<Cell> {
    [Str(c.author), Str(c.body), Str(datetimeStr(c.createdUtc)), Str(c.id), Int(c.score)]
  }

  /** The submission's six fields that `save_submission` puts before every comment. */
  function SubmissionInfo(s: Submission, datetimeStr: int -> string): seq<Cell> {
    [Str(s.title), Str(s.author), Str(s.selftext), Int(s.score), Str(s.id), Str(datetimeStr(s.createdUtc))]
  }

  function WideRow(s: Submission, c: Comment, datetimeStr: int -> string): seq<Cell> {
    SubmissionInfo(s, datetimeStr) + SaveComment(c, datetimeStr)
  }

  /** Read under the wide header, every cell of a wide row is the field its
      column names: the submission's six fields, then the comment's five. */
  lemma WideRowFields(s: Submission, c: Comment, datetimeStr: int -> string)
    ensures |WideRow(s, c, datetimeStr)| == |INITIAL_COL_NAMES|
    ensures var row := WideRow(s, c, datetimeStr);
      && Get(INITIAL_COL_NAMES, row, "submission_title") == Str(s.title)
      && Get(INITIAL_COL_NAMES, row, "submission_author") == Str(s.author)
      && Get(INITIAL_COL_NAMES, row, "submission_body") == Str(s.selftext)
      && Get(INITIAL_COL_NAMES, row, "submission_score") == Int(s.score)
      && Get(INITIAL_COL_NAMES, row, "submission_id") == Str(s.id)
      && Get(INITIAL_COL_NAMES, row, "submission_datetime") == Str(datetimeStr(s.createdUtc))
      && Get(INITIAL_COL_NAMES, row, "comment_author") == Str(c.author)
      && Get(INITIAL_COL_NAMES, row, "comment_body") == Str(c.body)
      && Get(INITIAL_COL_NAMES, row, "comment_datetime") == Str(datetimeStr(c.createdUtc))
      && Get(INITIAL_COL_NAMES, row, "comment_id") == Str(c.id)
      && Get(INITIAL_COL_NAMES, row, "comment_score") == Int(c.score)
  {
    var row := WideRow(s, c, datetimeStr);
    InitialHeader();
    GetAt(INITIAL_COL_NAMES, row, 0);
    GetAt(INITIAL_COL_NAMES, row, 1);
    GetAt(INITIAL_COL_NAMES, row, 2);
    GetAt(INITIAL_COL_NAMES, row, 3);
    GetAt(INITIAL_COL_NAMES, row, 4);
    GetAt(INITIAL_COL_NAMES, row, 5);
    GetAt(INITIAL_COL_NAMES, row, 6);
    GetAt(INITIAL_COL_NAMES, row, 7);
    GetAt(INITIAL_COL_NAMES, row, 8);
    GetAt(INITIAL_COL_NAMES, row, 9);
    GetAt(INITIAL_COL_NAMES, row, 10);
  }

  /** The wide rows of one submission: one per comment, in comment order. */
  function SubmissionRows(s: Submission, datetimeStr: int -> string): (rows: seq<seq<Cell>>)
    ensures |rows| == |s.comments|
    ensures forall j | 0 <= j < |s.comments| :: rows[j] == WideRow(s, s.comments[j], datetimeStr)
  {
    seq(|s.comments|, j requires 0 <= j < |s.comments| => WideRow(s, s.comments[j], datetimeStr))
  }

  /** `save_submission`: a table under the wide header with one row per
      comment, each the submission's fields followed by that comment's. */
  method SaveSubmission(s: Submission, datetimeStr: int -> string) returns (df: Frame)
    ensures df.columns == INITIAL_COL_NAMES
    ensures |df.rows| == |s.comments|
    ensures forall j | 0 <= j < |s.comments| ::
              df.rows[j] == SubmissionInfo(s, datetimeStr) + SaveComment(s.comments[j], datetimeStr)
  {
    InitialHeader();
    df := Empty(INITIAL_COL_NAMES);
    var info := SubmissionInfo(s, datetimeStr);
    for i := 0 to |s.comments|
      invariant df.columns == INITIAL_COL_NAMES
      invariant df.rows == SubmissionRows(s, datetimeStr)[..i]
    {
      var infoList := info + SaveComment(s.comments[i], datetimeStr);
      var series := Frame(INITIAL_COL_NAMES, [infoList]);
      AppendSameColumns(df, series);
      df := Append(df, series);
      assert SubmissionRows(s, datetimeStr)[..i + 1] == SubmissionRows(s, datetimeStr)[..i] + [infoList];
    }
  }

  /** Every (submission, comment) pair: submissions in order, and within one
      submission its comments in order. */
  function Pairs(subs: seq<Submission>): (ps: seq<(Submission, Comment)>)
    decreases |subs|
  {
    if subs == [] then []
    else
      var s := subs[|subs| - 1];
      Pairs(subs[..|subs| - 1]) + seq(|s.comments|, j requires 0 <= j < |s.comments| => (s, s.comments[j]))
  }

  /** The total number of comments of the submissions. */
  function CommentCount(subs: seq<Submission>): nat
    decreases |subs|
  {
    if subs == [] then 0 else CommentCount(subs[..|subs| - 1]) + |subs[|subs| - 1].comments|
  }

  lemma {:induction false} PairsConcat(a: seq<Submission>, b: seq<Submission>)
    ensures Pairs(a + b) == Pairs(a) + Pairs(b)
    decreases |b|
  {
    if b == [] {
      assert a + b == a;
    } else {
      var n := |b| - 1;
      var s := b[n];
      var tail := seq(|s.comments|, j requires 0 <= j < |s.comments| => (s, s.comments[j]));
      assert Pairs(a + b) == Pairs(a + b[..n]) + tail by {
        assert (a + b)[..|a + b| - 1] == a + b[..n];
        assert (a + b)[|a + b| - 1] == s;
      }
      assert Pairs(b) == Pairs(b[..n]) + tail;
      assert Pairs(a + b[..n]) == Pairs(a) + Pairs(b[..n]) by {
        PairsConcat(a, b[..n]);
      }
    }
  }

  /** One pair per comment of the submissions, each holding its own submission. */
  lemma {:induction false} PairsCount(subs: seq<Submission>)
    ensures |Pairs(subs)| == CommentCount(subs)
    ensures forall i | 0 <= i < |Pairs(subs)| :: Pairs(subs)[i].0 in subs && Pairs(subs)[i].1 in Pairs(subs)[i].0.comments
    decreases |subs|
  {
    if subs != [] {
      var n := |subs| - 1;
      PairsCount(subs[..n]);
      var ps := Pairs(subs);
      forall i | 0 <= i < |ps| ensures ps[i].0 in subs && ps[i].1 in ps[i].0.comments {
        if i < |Pairs(subs[..n])| {
          assert ps[i] == Pairs(subs[..n])[i];
          assert ps[i].0 in subs[..n];
        } else {
          assert ps[i] == (subs[n], subs[n].comments[i - |Pairs(subs[..n])|]);
        }
      }
    }
  }

  /** The wide rows of a sequence of submissions, one per (submission, comment) pair. */
  function WideRows(subs: seq<Submission>, datetimeStr: int -> string): (rows: seq<seq<Cell>>)
    ensures |rows| == |Pairs(subs)|
    ensures forall i | 0 <= i < |rows| :: rows[i] == WideRow(Pairs(subs)[i].0, Pairs(subs)[i].1, datetimeStr)
    ensures forall i | 0 <= i < |rows| :: |rows[i]| == |INITIAL_COL_NAMES|
  {
    var ps := Pairs(subs);
    seq(|ps|, i requires 0 <= i < |ps| => WideRow(ps[i].0, ps[i].1, datetimeStr))
  }

  lemma WideRowsConcat(a: seq<Submission>, b: seq<Submission>, datetimeStr: int -> string)
    ensures WideRows(a + b, datetimeStr) == WideRows(a, datetimeStr) + WideRows(b, datetimeStr)
  {
    PairsConcat(a, b);
  }

  lemma WideRowsSnoc(subs: seq<Submission>, s: Submission, datetimeStr: int -> string)
    ensures WideRows(subs + [s], datetimeStr) == WideRows(subs, datetimeStr) + SubmissionRows(s, datetimeStr)
  {
    assert Pairs([s]) == seq(|s.comments|, j requires 0 <= j < |s.comments| => (s, s.comments[j])) by {
      assert [s][..0] == [];
    }
    assert WideRows([s], datetimeStr) == SubmissionRows(s, datetimeStr);
    assert WideRows(subs + [s], datetimeStr) == WideRows(subs, datetimeStr) + WideRows([s], datetimeStr) by {
      WideRowsConcat(subs, [s], datetimeStr);
    }
  }

  /** The submissions a listing yields for `subreddit.new(limit=...)`: the
      first `limit` of the newest-first listing. */
  function Newest(listing: seq<Submission>, limit: nat): (subs: seq<Submission>)
    ensures |subs| == if limit < |listing| then limit else |listing|
    ensures subs == listing[..|subs|]
  {
    if limit < |listing| then listing[..limit] else listing
  }

  /** `save_subreddit`: the wide rows of the newest `extractLimit` submissions
      of the listing, submission after submission. */
  method SaveSubreddit(listing: seq<Submission>, extractLimit: nat, datetimeStr: int -> string)
    returns (df: Frame)
    ensures df.columns == INITIAL_COL_NAMES
    ensures df.rows == WideRows(Newest(listing, extractLimit), datetimeStr)
  {
    InitialHeader();
    df := Empty(INITIAL_COL_NAMES);
    var subs := Newest(listing, extractLimit);
    for i := 0 to |subs|
      invariant df == Frame(INITIAL_COL_NAMES, WideRows(subs[..i], datetimeStr))
    {
      var submissionDf := SaveSubmission(subs[i], datetimeStr);
      assert submissionDf == Frame(INITIAL_COL_NAMES, SubmissionRows(subs[i], datetimeStr));
      AppendSubmission(subs[..i], subs[i], datetimeStr);
      df := Append(df, submissionDf);
      assert subs[..i + 1] == subs[..i] + [subs[i]];
    }
    assert subs[..|subs|] == subs;
  }

  /** Appending one submission's table to the wide table of the submissions before it. */
  lemma AppendSubmission(subs: seq<Submission>, s: Submission, datetimeStr: int -> string)
    ensures Append(Frame(INITIAL_COL_NAMES, WideRows(subs, datetimeStr)), Frame(INITIAL_COL_NAMES, SubmissionRows(s, datetimeStr)))
            == Frame(INITIAL_COL_NAMES, WideRows(subs + [s], datetimeStr))
  {
    InitialHeader();
    AppendSameColumns(Frame(INITIAL_COL_NAMES, WideRows(subs, datetimeStr)), Frame(INITIAL_COL_NAMES, SubmissionRows(s, datetimeStr)));
    WideRowsSnoc(subs, s, datetimeStr);
  }

  // ---------------------------------------------------------------------
  // Collecting the subreddits

  /** The wide table of every subreddit, in subreddit order. */
  function SubredditFrames(names: seq<string>, numPosts: nat, newest: string -> seq<Submission>,
                           datetimeStr: int -> string): (fs: seq<Frame>)
    ensures |fs| == |names|
  {
    seq(|names|, k requires 0 <= k < |names| =>
          Frame(INITIAL_COL_NAMES, WideRows(Newest(newest(names[k]), numPosts), datetimeStr)))
  }

  lemma SubredditFramesSnoc(names: seq<string>, i: nat, numPosts: nat, newest: string -> seq<Submission>,
                            datetimeStr: int -> string)
    requires i < |names|
    ensures SubredditFrames(names[..i + 1], numPosts, newest, datetimeStr)
            == SubredditFrames(names[..i], numPosts, newest, datetimeStr)
               + [Frame(INITIAL_COL_NAMES, WideRows(Newest(newest(names[i]), numPosts), datetimeStr))]
  {
  }

  /** All submissions fetched, subreddit after subreddit. */
  function Fetched(names: seq<string>, numPosts: nat, newest: string -> seq<Submission>): seq<Submission> {
    Concat(seq(|names|, k requires 0 <= k < |names| => Newest(newest(names[k]), numPosts)))
  }

  /** The table `create_data` builds by appending each subreddit's table to
      an empty table with the final header. */
  function Collected(frames: seq<Frame>): Frame
    decreases |frames|
  {
    if frames == [] then Empty(FINAL_COL_NAMES)
    else Append(Collected(frames[..|frames| - 1]), frames[|frames| - 1])
  }

  lemma CollectedStep(names: seq<string>, numPosts: nat, newest: string -> seq<Submission>,
                      datetimeStr: int -> string)
    requires |names| > 0
    ensures var n := |names| - 1;
      && SubredditFrames(names, numPosts, newest, datetimeStr)[..n] == SubredditFrames(names[..n], numPosts, newest, datetimeStr)
      && Fetched(names, numPosts, newest) == Fetched(names[..n], numPosts, newest) + Newest(newest(names[n]), numPosts)
  {
    var n := |names| - 1;
    var parts := seq(|names|, k requires 0 <= k < |names| => Newest(newest(names[k]), numPosts));
    assert parts[..n] == seq(n, k requires 0 <= k < n => Newest(newest(names[..n][k]), numPosts));
  }

  /** Appending a wide table to a table that already has the collected
      header re-lays the wide rows under that header and adds them at the end. */
  lemma AppendToCollected(r: seq<seq<Cell>>, w: seq<seq<Cell>>)
    requires forall i | 0 <= i < |r| :: |r[i]| == |COLLECTED_COLUMNS|
    ensures Append(Frame(COLLECTED_COLUMNS, r), Frame(INITIAL_COL_NAMES, w))
            == Frame(COLLECTED_COLUMNS, r + RealignRows(INITIAL_COL_NAMES, w, COLLECTED_COLUMNS))
  {
    CollectedHeader();
    AppendCovered(Frame(COLLECTED_COLUMNS, r), Frame(INITIAL_COL_NAMES, w));
  }

  /** Appending the first wide table to the empty final table gives the collected header. */
  lemma AppendToEmpty(w: seq<seq<Cell>>)
    ensures Append(Empty(FINAL_COL_NAMES), Frame(INITIAL_COL_NAMES, w))
            == Frame(COLLECTED_COLUMNS, RealignRows(INITIAL_COL_NAMES, w, COLLECTED_COLUMNS))
  {
  }

  /** For at least one subreddit, the collected table has the collected header
      and holds every wide row, in order, re-laid under that header. */
  lemma {:induction false} CollectedShape(names: seq<string>, numPosts: nat, newest: string -> seq<Submission>,
                                         datetimeStr: int -> string)
    requires |names| > 0
    ensures Collected(SubredditFrames(names, numPosts, newest, datetimeStr))
            == Frame(COLLECTED_COLUMNS, RealignRows(INITIAL_COL_NAMES, WideRows(Fetched(names, numPosts, newest), datetimeStr), COLLECTED_COLUMNS))
    decreases |names|
  {
    var n := |names| - 1;
    var fs := SubredditFrames(names, numPosts, newest, datetimeStr);
    CollectedStep(names, numPosts, newest, datetimeStr);
    var before := Fetched(names[..n], numPosts, newest);
    var last := Newest(newest(names[n]), numPosts);
    var w := WideRows(last, datetimeStr);
    assert fs[n] == Frame(INITIAL_COL_NAMES, w);
    assert Collected(fs) == Append(Collected(fs[..n]), fs[n]);
    WideRowsConcat(before, last, datetimeStr);
    var all := WideRows(Fetched(names, numPosts, newest), datetimeStr);
    assert all == WideRows(before, datetimeStr) + w;
    if n == 0 {
      assert before == [];
      assert all == w;
      assert Collected(fs[..n]) == Empty(FINAL_COL_NAMES);
      AppendToEmpty(w);
      assert Collected(fs) == Frame(COLLECTED_COLUMNS, RealignRows(INITIAL_COL_NAMES, w, COLLECTED_COLUMNS));
    } else {
      CollectedShape(names[..n], numPosts, newest, datetimeStr);
      var r := RealignRows(INITIAL_COL_NAMES, WideRows(before, datetimeStr), COLLECTED_COLUMNS);
      assert Collected(fs[..n]) == Frame(COLLECTED_COLUMNS, r);
      AppendToCollected(r, w);
      assert Collected(fs) == Frame(COLLECTED_COLUMNS, r + RealignRows(INITIAL_COL_NAMES, w, COLLECTED_COLUMNS));
      RealignRowsConcat(INITIAL_COL_NAMES, WideRows(before, datetimeStr), w, COLLECTED_COLUMNS);
    }
  }

  // ---------------------------------------------------------------------
  // Reshaping into the long table

  /** `transform_data`: the comment columns typed "comment", the distinct
      submission columns typed "submission", both relabelled with the final
      names, submissions first. A missing column is a key error. */
  function TransformData(df: Frame): (r: Result<Frame, FrameError>)
    requires Rectangular(df)
    ensures r.Ok? <==> (forall k | 0 <= k < |COMMENT_COLUMNS| :: COMMENT_COLUMNS[k] in df.columns)
                         && (forall k | 0 <= k < |SUBMISSION_COLUMNS| :: SUBMISSION_COLUMNS[k] in df.columns)
    ensures r.Err? ==> r.error.KeyError? && r.error.column !in df.columns
    ensures r.Ok? ==> r.value.columns == FINAL_COL_NAMES && Rectangular(r.value)
  {
    var dfComment :- Select(df, COMMENT_COLUMNS);
    var dfComment := AssignConstant(dfComment, "type", Str("comment"));
    var dfSubmission :- Select(df, SUBMISSION_COLUMNS);
    var dfSubmission := AssignConstant(DropDuplicates(dfSubmission), "type", Str("submission"));
    // Both headers have eight names, so relabelling cannot fail.
    TypeIsNew();
    var dfComment := Rename(dfComment, FINAL_COL_NAMES).value;
    var dfSubmission := Rename(dfSubmission, FINAL_COL_NAMES).value;
    FinalHeader();
    AppendSameColumns(dfSubmission, dfComment);
    Ok(Append(dfSubmission, dfComment))
  }

  /** The comment record a wide row gives, read by column name. */
  function CommentRecordOf(columns: seq<string>, row: seq<Cell>): seq<Cell> {
    [Get(columns, row, "submission_title"), Get(columns, row, "submission_id"),
     Get(columns, row, "comment_author"), Get(columns, row, "comment_body"),
     Get(columns, row, "comment_datetime"), Get(columns, row, "comment_id"),
     Get(columns, row, "comment_score"), Str("comment")]
  }

  /** The submission fields a wide row carries, read by column name; the
      submission id stands both as thread id and as record id. */
  function SubmissionKeyOf(columns: seq<string>, row: seq<Cell>): seq<Cell> {
    [Get(columns, row, "submission_title"), Get(columns, row, "submission_id"),
     Get(columns, row, "submission_author"), Get(columns, row, "submission_body"),
     Get(columns, row, "submission_datetime"), Get(columns, row, "submission_id"),
     Get(columns, row, "submission_score")]
  }

  predicate HasWideColumns(df: Frame) {
    forall k | 0 <= k < |INITIAL_COL_NAMES| :: INITIAL_COL_NAMES[k] in df.columns
  }

  lemma CommentRow(columns: seq<string>, row: seq<Cell>, c: seq<Cell>)
    requires |c| == |COMMENT_COLUMNS| && forall k | 0 <= k < |c| :: c[k] == Get(columns, row, COMMENT_COLUMNS[k])
    ensures c + [Str("comment")] == CommentRecordOf(columns, row)
  {
    assert c[0] == Get(columns, row, COMMENT_COLUMNS[0]);
    assert c[1] == Get(columns, row, COMMENT_COLUMNS[1]);
    assert c[2] == Get(columns, row, COMMENT_COLUMNS[2]);
    assert c[3] == Get(columns, row, COMMENT_COLUMNS[3]);
    assert c[4] == Get(columns, row, COMMENT_COLUMNS[4]);
    assert c[5] == Get(columns, row, COMMENT_COLUMNS[5]);
    assert c[6] == Get(columns, row, COMMENT_COLUMNS[6]);
  }

  lemma SubmissionRow(columns: seq<string>, row: seq<Cell>, s: seq<Cell>)
    requires |s| == |SUBMISSION_COLUMNS| && forall k | 0 <= k < |s| :: s[k] == Get(columns, row, SUBMISSION_COLUMNS[k])
    ensures s == SubmissionKeyOf(columns, row)
  {
    assert s[0] == Get(columns, row, SUBMISSION_COLUMNS[0]);
    assert s[1] == Get(columns, row, SUBMISSION_COLUMNS[1]);
    assert s[2] == Get(columns, row, SUBMISSION_COLUMNS[2]);
    assert s[3] == Get(columns, row, SUBMISSION_COLUMNS[3]);
    assert s[4] == Get(columns, row, SUBMISSION_COLUMNS[4]);
    assert s[5] == Get(columns, row, SUBMISSION_COLUMNS[5]);
    assert s[6] == Get(columns, row, SUBMISSION_COLUMNS[6]);
  }

  /** A table holding the wide columns holds every column `transform_data` selects. */
  lemma SelectsWide(df: Frame)
    requires HasWideColumns(df)
    ensures forall k | 0 <= k < |COMMENT_COLUMNS| :: COMMENT_COLUMNS[k] in df.columns
    ensures forall k | 0 <= k < |SUBMISSION_COLUMNS| :: SUBMISSION_COLUMNS[k] in df.columns
  {
    assert forall k | 0 <= k < |COMMENT_COLUMNS| :: COMMENT_COLUMNS[k] in INITIAL_COL_NAMES;
    assert forall k | 0 <= k < |SUBMISSION_COLUMNS| :: SUBMISSION_COLUMNS[k] in INITIAL_COL_NAMES;
  }

  /** The comment part: one record per wide row. */
  lemma CommentPart(df: Frame)
    requires Rectangular(df) && HasWideColumns(df)
    ensures Select(df, COMMENT_COLUMNS).Ok?
    ensures AssignConstant(Select(df, COMMENT_COLUMNS).value, "type", Str("comment"))
         == Frame(COMMENT_COLUMNS + ["type"], seq(|df.rows|, i requires 0 <= i < |df.rows| => CommentRecordOf(df.columns, df.rows[i])))
  {
    SelectsWide(df);
    var c := Select(df, COMMENT_COLUMNS).value;
    var c' := AssignConstant(c, "type", Str("comment"));
    assert "type" !in COMMENT_COLUMNS;
    forall i | 0 <= i < |df.rows| ensures c'.rows[i] == CommentRecordOf(df.columns, df.rows[i]) {
      CommentRow(df.columns, df.rows[i], c.rows[i]);
    }
  }

  /** The submission part: the distinct submission field tuples, in first-occurrence order. */
  lemma SubmissionPart(df: Frame)
    requires Rectangular(df) && HasWideColumns(df)
    ensures Select(df, SUBMISSION_COLUMNS).Ok?
    ensures AssignConstant(DropDuplicates(Select(df, SUBMISSION_COLUMNS).value), "type", Str("submission"))
         == Frame(SUBMISSION_COLUMNS + ["type"],
                  AppendEach(Distinct(seq(|df.rows|, i requires 0 <= i < |df.rows| => SubmissionKeyOf(df.columns, df.rows[i]))), Str("submission")))
  {
    SelectsWide(df);
    var sel := Select(df, SUBMISSION_COLUMNS).value;
    var keys := seq(|df.rows|, i requires 0 <= i < |df.rows| => SubmissionKeyOf(df.columns, df.rows[i]));
    forall i | 0 <= i < |df.rows| ensures sel.rows[i] == keys[i] {
      SubmissionRow(df.columns, df.rows[i], sel.rows[i]);
    }
    assert sel.rows == keys;
    assert "type" !in SUBMISSION_COLUMNS;
  }

  /** The long table of a table holding the wide columns: first the distinct
      submission field tuples (first occurrence kept, in order) typed
      "submission", then one record per input row typed "comment". */
  lemma TransformDataRows(df: Frame)
    requires Rectangular(df) && HasWideColumns(df)
    ensures TransformData(df) == Ok(Frame(FINAL_COL_NAMES,
              AppendEach(Distinct(seq(|df.rows|, i requires 0 <= i < |df.rows| => SubmissionKeyOf(df.columns, df.rows[i]))), Str("submission"))
              + seq(|df.rows|, i requires 0 <= i < |df.rows| => CommentRecordOf(df.columns, df.rows[i]))))
  {
    var srows := AppendEach(Distinct(seq(|df.rows|, i requires 0 <= i < |df.rows| => SubmissionKeyOf(df.columns, df.rows[i]))), Str("submission"));
    var crows := seq(|df.rows|, i requires 0 <= i < |df.rows| => CommentRecordOf(df.columns, df.rows[i]));
    SelectsWide(df);
    var c' := AssignConstant(Select(df, COMMENT_COLUMNS).value, "type", Str("comment"));
    var s' := AssignConstant(DropDuplicates(Select(df, SUBMISSION_COLUMNS).value), "type", Str("submission"));
    assert c' == Frame(COMMENT_COLUMNS + ["type"], crows) by {
      CommentPart(df);
    }
    assert s' == Frame(SUBMISSION_COLUMNS + ["type"], srows) by {
      SubmissionPart(df);
    }
    TypeIsNew();
    assert Rename(c', FINAL_COL_NAMES).value == Frame(FINAL_COL_NAMES, crows);
    assert Rename(s', FINAL_COL_NAMES).value == Frame(FINAL_COL_NAMES, srows);
    assert Append(Frame(FINAL_COL_NAMES, srows), Frame(FINAL_COL_NAMES, crows)) == Frame(FINAL_COL_NAMES, srows + crows) by {
      FinalHeader();
      AppendSameColumns(Frame(FINAL_COL_NAMES, srows), Frame(FINAL_COL_NAMES, crows));
    }
  }

  /** The record `transform_data` makes of a comment: its thread's title and id,
      then the comment's own fields, typed "comment". */
  function CommentRecord(s: Submission, c: Comment, datetimeStr: int -> string): seq<Cell> {
    [Str(s.title), Str(s.id), Str(c.author), Str(c.body), Str(datetimeStr(c.createdUtc)),
     Str(c.id), Int(c.score), Str("comment")]
  }

  /** The submission fields, in final order, before the "submission" type is added. */
  function SubmissionKey(s: Submission, datetimeStr: int -> string): seq<Cell> {
    [Str(s.title), Str(s.id), Str(s.author), Str(s.selftext), Str(datetimeStr(s.createdUtc)),
     Str(s.id), Int(s.score)]
  }

  /** Rows of the long table: eight cells, the body (position 3) text. */
  predicate LongShaped(rows: seq<seq<Cell>>) {
    forall i | 0 <= i < |rows| :: |rows[i]| == |FINAL_COL_NAMES| && rows[i][BODY].Str?
  }

  /** The submission fields of every (submission, comment) pair, in pair order. */
  function PairKeys(subs: seq<Submission>, datetimeStr: int -> string): (keys: seq<seq<Cell>>)
    ensures |keys| == |Pairs(subs)|
    ensures forall i | 0 <= i < |keys| :: keys[i] == SubmissionKey(Pairs(subs)[i].0, datetimeStr)
  {
    var ps := Pairs(subs);
    seq(|ps|, i requires 0 <= i < |ps| => SubmissionKey(ps[i].0, datetimeStr))
  }

  /** The comment record of every (submission, comment) pair, in pair order. */
  function CommentRecords(subs: seq<Submission>, datetimeStr: int -> string): (records: seq<seq<Cell>>)
    ensures |records| == |Pairs(subs)|
    ensures forall i | 0 <= i < |records| :: records[i] == CommentRecord(Pairs(subs)[i].0, Pairs(subs)[i].1, datetimeStr)
  {
    var ps := Pairs(subs);
    seq(|ps|, i requires 0 <= i < |ps| => CommentRecord(ps[i].0, ps[i].1, datetimeStr))
  }

  /** The long table of the fetched submissions, stated on submissions and
      comments: the distinct submission records of all (submission, comment)
      pairs, then one comment record per pair. */
  function LongRows(subs: seq<Submission>, datetimeStr: int -> string): (rows: seq<seq<Cell>>)
    ensures LongShaped(rows)
  {
    var heads := AppendEach(Distinct(PairKeys(subs, datetimeStr)), Str("submission"));
    var records := CommentRecords(subs, datetimeStr);
    HeadsShaped(PairKeys(subs, datetimeStr));
    RecordsShaped(subs, datetimeStr);
    LongShapedConcat(heads, records);
    heads + records
  }

  /** Submission keys typed "submission" are rows of the long table. */
  lemma HeadsShaped(keys: seq<seq<Cell>>)
    requires forall k | 0 <= k < |keys| :: |keys[k]| == 7 && keys[k][BODY].Str?
    ensures LongShaped(AppendEach(Distinct(keys), Str("submission")))
  {
    var heads: seq<seq<Cell>> := AppendEach(Distinct(keys), Str("submission"));
    forall i | 0 <= i < |heads| ensures |heads[i]| == |FINAL_COL_NAMES| && heads[i][BODY].Str? {
      var k :| 0 <= k < |keys| && keys[k] == Distinct(keys)[i];
      assert heads[i] == keys[k] + [Str("submission")];
    }
  }

  lemma RecordsShaped(subs: seq<Submission>, datetimeStr: int -> string)
    ensures LongShaped(CommentRecords(subs, datetimeStr))
  {
  }

  lemma LongShapedConcat(a: seq<seq<Cell>>, b: seq<seq<Cell>>)
    requires LongShaped(a) && LongShaped(b)
    ensures LongShaped(a + b)
  {
    forall i | 0 <= i < |a + b| ensures |(a + b)[i]| == |FINAL_COL_NAMES| && (a + b)[i][BODY].Str? {
      if i < |a| {
        assert (a + b)[i] == a[i];
      } else {
        assert (a + b)[i] == b[i - |a|];
      }
    }
  }

  /** Re-laying a row under a header that holds every wide name leaves the
      fields `transform_data` reads by name unchanged. */
  lemma RecordsOfRealign(columns: seq<string>, row: seq<Cell>, target: seq<string>)
    requires forall k | 0 <= k < |INITIAL_COL_NAMES| :: INITIAL_COL_NAMES[k] in target
    ensures SubmissionKeyOf(target, Pick(columns, row, target)) == SubmissionKeyOf(columns, row)
    ensures CommentRecordOf(target, Pick(columns, row, target)) == CommentRecordOf(columns, row)
  {
    assert INITIAL_COL_NAMES[0] in target && INITIAL_COL_NAMES[1] in target && INITIAL_COL_NAMES[2] in target
        && INITIAL_COL_NAMES[3] in target && INITIAL_COL_NAMES[4] in target && INITIAL_COL_NAMES[5] in target
        && INITIAL_COL_NAMES[6] in target && INITIAL_COL_NAMES[7] in target && INITIAL_COL_NAMES[8] in target
        && INITIAL_COL_NAMES[9] in target && INITIAL_COL_NAMES[10] in target;
    GetRealign(columns, row, target, "submission_title");
    GetRealign(columns, row, target, "submission_author");
    GetRealign(columns, row, target, "submission_body");
    GetRealign(columns, row, target, "submission_score");
    GetRealign(columns, row, target, "submission_id");
    GetRealign(columns, row, target, "submission_datetime");
    GetRealign(columns, row, target, "comment_author");
    GetRealign(columns, row, target, "comment_body");
    GetRealign(columns, row, target, "comment_datetime");
    GetRealign(columns, row, target, "comment_id");
    GetRealign(columns, row, target, "comment_score");
  }

  /** Read by name under the wide header, a wide row gives the submission's
      fields and the comment's record. */
  lemma RecordsOfWideRow(s: Submission, c: Comment, datetimeStr: int -> string)
    ensures SubmissionKeyOf(INITIAL_COL_NAMES, WideRow(s, c, datetimeStr)) == SubmissionKey(s, datetimeStr)
    ensures CommentRecordOf(INITIAL_COL_NAMES, WideRow(s, c, datetimeStr)) == CommentRecord(s, c, datetimeStr)
  {
    WideRowFields(s, c, datetimeStr);
  }

  /** A wide row re-laid under the collected header yields the submission's
      fields and the comment's record `transform_data` reads by name. */
  lemma CollectedRowFields(s: Submission, c: Comment, datetimeStr: int -> string)
    ensures var row := Pick(INITIAL_COL_NAMES, WideRow(s, c, datetimeStr), COLLECTED_COLUMNS);
            && SubmissionKeyOf(COLLECTED_COLUMNS, row) == SubmissionKey(s, datetimeStr)
            && CommentRecordOf(COLLECTED_COLUMNS, row) == CommentRecord(s, c, datetimeStr)
  {
    CollectedHeader();
    RecordsOfRealign(INITIAL_COL_NAMES, WideRow(s, c, datetimeStr), COLLECTED_COLUMNS);
    RecordsOfWideRow(s, c, datetimeStr);
  }

  /** Read by name, the rows of the collected table give the submission
      fields and the comment record of each (submission, comment) pair. */
  lemma CollectedRecords(subs: seq<Submission>, datetimeStr: int -> string)
    ensures var df := Frame(COLLECTED_COLUMNS, RealignRows(INITIAL_COL_NAMES, WideRows(subs, datetimeStr), COLLECTED_COLUMNS));
            var ps := Pairs(subs);
            && seq(|df.rows|, i requires 0 <= i < |df.rows| => SubmissionKeyOf(df.columns, df.rows[i]))
               == PairKeys(subs, datetimeStr)
            && seq(|df.rows|, i requires 0 <= i < |df.rows| => CommentRecordOf(df.columns, df.rows[i]))
               == CommentRecords(subs, datetimeStr)
  {
    var df := Frame(COLLECTED_COLUMNS, RealignRows(INITIAL_COL_NAMES, WideRows(subs, datetimeStr), COLLECTED_COLUMNS));
    var ps := Pairs(subs);
    forall i | 0 <= i < |ps|
      ensures SubmissionKeyOf(df.columns, df.rows[i]) == SubmissionKey(ps[i].0, datetimeStr)
      ensures CommentRecordOf(df.columns, df.rows[i]) == CommentRecord(ps[i].0, ps[i].1, datetimeStr)
    {
      CollectedRowFields(ps[i].0, ps[i].1, datetimeStr);
    }
  }

  /** Reshaping the collected table gives the long table of the fetched submissions. */
  lemma TransformCollected(subs: seq<Submission>, datetimeStr: int -> string)
    ensures var df := Frame(COLLECTED_COLUMNS, RealignRows(INITIAL_COL_NAMES, WideRows(subs, datetimeStr), COLLECTED_COLUMNS));
            Rectangular(df) && TransformData(df) == Ok(Frame(FINAL_COL_NAMES, LongRows(subs, datetimeStr)))
  {
    CollectedHeader();
    var df := Frame(COLLECTED_COLUMNS, RealignRows(INITIAL_COL_NAMES, WideRows(subs, datetimeStr), COLLECTED_COLUMNS));
    assert Rectangular(df) && HasWideColumns(df);
    TransformDataRows(df);
    CollectedRecords(subs, datetimeStr);
  }

  // ---------------------------------------------------------------------
  // Cleaning and tagging

  /** `remove_unwanted_char`: every body loses the characters outside
      [\w\d\s$]; a missing body column is a key error and a body that is
      not text is a type error. */
  function RemoveUnwantedChar(df: Frame): (r: Result<Frame, FrameError>)
    requires Rectangular(df)
    ensures r.Ok? <==> "body" in df.columns && forall i | 0 <= i < |df.rows| :: Get(df.columns, df.rows[i], "body").Str?
    ensures r.Err? ==> r.error == if "body" in df.columns then NotText("body") else KeyError("body")
    ensures r.Ok? ==> r.value.columns == df.columns && |r.value.rows| == |df.rows| && Rectangular(r.value)
    ensures r.Ok? ==> forall i, k | 0 <= i < |df.rows| && 0 <= k < |df.columns| ::
              r.value.rows[i][k] == if df.columns[k] == "body" then Str(Text.Clean(Get(df.columns, df.rows[i], "body").s))
                                    else df.rows[i][k]
  {
    var cleaned :- ApplyText(df, "body", CleanText);
    Ok(Assign(df, "body", cleaned))
  }

  function CleanText(text: string): Cell {
    Str(Text.Clean(text))
  }

  /** The long rows with every body cleaned. */
  function CleanRows(rows: seq<seq<Cell>>): (r: seq<seq<Cell>>)
    requires LongShaped(rows)
    ensures LongShaped(r) && |r| == |rows|
  {
    seq(|rows|, i requires 0 <= i < |rows| => rows[i][BODY := Str(Text.Clean(rows[i][BODY].s))])
  }

  /** On the long table, cleaning replaces each body by its cleaned text and
      touches no other cell. */
  lemma RemoveUnwantedCharRows(rows: seq<seq<Cell>>)
    requires LongShaped(rows)
    ensures RemoveUnwantedChar(Frame(FINAL_COL_NAMES, rows)) == Ok(Frame(FINAL_COL_NAMES, CleanRows(rows)))
  {
    FinalHeader();
    var f := Frame(FINAL_COL_NAMES, rows);
    forall i | 0 <= i < |rows| ensures Get(FINAL_COL_NAMES, rows[i], "body") == rows[i][BODY] {
      GetAt(FINAL_COL_NAMES, rows[i], BODY);
    }
    var a := ApplyText(f, "body", CleanText);
    assert a.Ok?;
    var cleaned := a.value;
    AssignAt(f, BODY, cleaned);
    assert CleanRows(rows) == seq(|rows|, i requires 0 <= i < |rows| => rows[i][BODY := cleaned[i]]);
    assert Assign(f, "body", cleaned) == Frame(FINAL_COL_NAMES, CleanRows(rows));
  }

  /** `extract_ticker`: each record gets a ticker column holding the tickers
      its body mentions, is repeated once per ticker (kept once, with a missing
      ticker, when there is none), and the tickers lose their dollar signs. */
  function ExtractTicker(df: Frame, tickerList: seq<string>): (r: Result<Frame, FrameError>)
    requires Rectangular(df)
    ensures r.Ok? <==> "body" in df.columns && forall i | 0 <= i < |df.rows| :: Get(df.columns, df.rows[i], "body").Str?
    ensures r.Err? ==> r.error == if "body" in df.columns then NotText("body") else KeyError("body")
    ensures r.Ok? ==> "ticker" in r.value.columns && Rectangular(r.value)
  {
    var found :- ApplyText(df, "body", text => Items(Text.TickersInText(text, tickerList)));
    var tagged := Assign(df, "ticker", found);
    // The ticker column exists now, so neither step below can fail.
    var exploded := Explode(tagged, "ticker").value;
    ExplodeRectangular(tagged, "ticker");
    var stripped := StrRemoveDollar(exploded, "ticker").value;
    Ok(Assign(exploded, "ticker", stripped))
  }

  /** The tickers each long row's body mentions. */
  function TickerLists(rows: seq<seq<Cell>>, tickerList: seq<string>): (lists: seq<seq<string>>)
    requires LongShaped(rows)
    ensures |lists| == |rows|
    ensures forall i | 0 <= i < |rows| :: lists[i] == Text.TickersInText(rows[i][BODY].s, tickerList)
  {
    seq(|rows|, i requires 0 <= i < |rows| => Text.TickersInText(rows[i][BODY].s, tickerList))
  }

  /** The long rows spread over the dollar-free tickers of their bodies. */
  function TaggedRows(rows: seq<seq<Cell>>, tickerList: seq<string>): (r: seq<seq<Cell>>)
    requires LongShaped(rows)
    ensures forall i | 0 <= i < |r| :: |r[i]| == |FINAL_COL_NAMES| + 1
  {
    SpreadRowsShape(rows, DollarFreeLists(TickerLists(rows, tickerList)), |FINAL_COL_NAMES|);
    SpreadRows(rows, DollarFreeLists(TickerLists(rows, tickerList)))
  }

  /** Overwriting the last column of a table by its dollar-free values. */
  lemma StripLastColumn(columns: seq<string>, name: string, rows: seq<seq<Cell>>)
    requires NoDuplicates(columns + [name])
    requires forall i | 0 <= i < |rows| :: |rows[i]| == |columns| + 1
    ensures var f := Frame(columns + [name], rows);
            StrRemoveDollar(f, name).Ok? && Rectangular(f) &&
            Assign(f, name, StrRemoveDollar(f, name).value) == Frame(columns + [name], StripAt(rows, |columns|))
  {
    var header := columns + [name];
    var f := Frame(header, rows);
    var n := |columns|;
    assert header[n] == name;
    var stripped := StrRemoveDollar(f, name).value;
    AssignAt(f, n, stripped);
    forall i | 0 <= i < |rows| ensures stripped[i] == StripCell(rows[i][n]) {
      GetAt(header, rows[i], n);
    }
    assert StripAt(rows, n) == seq(|rows|, i requires 0 <= i < |rows| => rows[i][n := stripped[i]]);
  }

  /** On the cleaned long table, tagging spreads every row over the
      dollar-free tickers its body mentions, under the final header plus "ticker". */
  lemma ExtractTickerRows(rows: seq<seq<Cell>>, tickerList: seq<string>)
    requires LongShaped(rows)
    ensures ExtractTicker(Frame(FINAL_COL_NAMES, rows), tickerList)
            == Ok(Frame(FINAL_COL_NAMES + ["ticker"], TaggedRows(rows, tickerList)))
  {
    FinalHeader();
    var f := Frame(FINAL_COL_NAMES, rows);
    var lists := TickerLists(rows, tickerList);
    forall i | 0 <= i < |rows| ensures Get(FINAL_COL_NAMES, rows[i], "body") == rows[i][BODY] {
      GetAt(FINAL_COL_NAMES, rows[i], BODY);
    }
    var found := ApplyText(f, "body", text => Items(Text.TickersInText(text, tickerList))).value;
    assert found == seq(|lists|, i requires 0 <= i < |lists| => Items(lists[i]));
    ExplodeNewColumn(f, "ticker", lists);
    var spread := SpreadRows(rows, lists);
    SpreadRowsShape(rows, lists, |FINAL_COL_NAMES|);
    StripLastColumn(FINAL_COL_NAMES, "ticker", spread);
    StripSpreadRows(rows, lists, |FINAL_COL_NAMES|);
  }

  // ---------------------------------------------------------------------
  // The whole pipeline

  /** With no subreddit the collected table has only the final header, so
      selecting the comment columns fails on the first one it lacks. */
  lemma TransformEmpty()
    ensures TransformData(Empty(FINAL_COL_NAMES)) == Err(KeyError("comment_author"))
  {
    var e := Empty(FINAL_COL_NAMES);
    assert COMMENT_COLUMNS[0] in FINAL_COL_NAMES && COMMENT_COLUMNS[1] in FINAL_COL_NAMES;
    assert COMMENT_COLUMNS[2] == "comment_author" && COMMENT_COLUMNS[2] !in e.columns;
    FirstAbsentAt(e.columns, COMMENT_COLUMNS, 2);
  }

  /** `create_data`: the wide tables of the newest `numPosts` submissions of
      every subreddit appended together, reshaped, cleaned and tagged. The
      forum client is the `newest` listing of a subreddit's submissions, the
      timestamp formatting is `datetimeStr`. */
  method CreateData(subredditList: seq<string>, numPosts: nat, newest: string -> seq<Submission>,
                    datetimeStr: int -> string, tickerList: seq<string>)
    returns (r: Result<Frame, FrameError>)
    ensures r.Err? <==> subredditList == []
    ensures r.Err? ==> r.error == KeyError("comment_author")
    ensures r.Ok? ==> r.value == Frame(FINAL_COL_NAMES + ["ticker"],
              TaggedRows(CleanRows(LongRows(Fetched(subredditList, numPosts, newest), datetimeStr)), tickerList))
  {
    var data := Empty(FINAL_COL_NAMES);
    for i := 0 to |subredditList|
      invariant data == Collected(SubredditFrames(subredditList[..i], numPosts, newest, datetimeStr))
    {
      var subredditData := SaveSubreddit(newest(subredditList[i]), numPosts, datetimeStr);
      ghost var before := SubredditFrames(subredditList[..i], numPosts, newest, datetimeStr);
      ghost var after := SubredditFrames(subredditList[..i + 1], numPosts, newest, datetimeStr);
      SubredditFramesSnoc(subredditList, i, numPosts, newest, datetimeStr);
      assert after[..i] == before;
      data := Append(data, subredditData);
    }
    assert subredditList[..|subredditList|] == subredditList;
    if subredditList == [] {
      TransformEmpty();
    } else {
      var subs := Fetched(subredditList, numPosts, newest);
      CollectedShape(subredditList, numPosts, newest, datetimeStr);
      TransformCollected(subs, datetimeStr);
      RemoveUnwantedCharRows(LongRows(subs, datetimeStr));
      ExtractTickerRows(CleanRows(LongRows(subs, datetimeStr)), tickerList);
    }
    var transformed :- TransformData(data);
    var cleaned := RemoveUnwantedChar(transformed).value;
    r := ExtractTicker(cleaned, tickerList);
  }

  // ---------------------------------------------------------------------
  // What the long table holds

  /** A submission without comments contributes no wide row and no record,
      wherever it stands among the fetched submissions. */
  lemma SilentSubmissionVanishes(a: seq<Submission>, s: Submission, b: seq<Submission>, datetimeStr: int -> string)
    requires s.comments == []
    ensures WideRows(a + [s] + b, datetimeStr) == WideRows(a + b, datetimeStr)
    ensures LongRows(a + [s] + b, datetimeStr) == LongRows(a + b, datetimeStr)
  {
    PairsConcat(a + [s], b);
    PairsConcat(a, [s]);
    PairsConcat(a, b);
    assert [s][..0] == [];
    assert Pairs(a + [s] + b) == Pairs(a + b);
  }

  predicate HasComments(s: Submission) {
    s.comments != []
  }

  /** No two submissions share an id. */
  predicate DistinctIds(subs: seq<Submission>) {
    forall i, j | 0 <= i < j < |subs| :: subs[i].id != subs[j].id
  }

  /** The submission fields of each submission, in order. */
  function Keys(subs: seq<Submission>, datetimeStr: int -> string): (keys: seq<seq<Cell>>)
    ensures |keys| == |subs|
    ensures forall k | 0 <= k < |subs| :: keys[k] == SubmissionKey(subs[k], datetimeStr)
  {
    seq(|subs|, k requires 0 <= k < |subs| => SubmissionKey(subs[k], datetimeStr))
  }

  lemma KeysSnoc(subs: seq<Submission>, s: Submission, datetimeStr: int -> string)
    ensures Keys(subs + [s], datetimeStr) == Keys(subs, datetimeStr) + [SubmissionKey(s, datetimeStr)]
  {
    var a, b := Keys(subs + [s], datetimeStr), Keys(subs, datetimeStr) + [SubmissionKey(s, datetimeStr)];
    forall k | 0 <= k < |a| ensures a[k] == b[k] {
      if k < |subs| {
        assert (subs + [s])[k] == subs[k];
      }
    }
  }

  lemma PairKeysSnoc(subs: seq<Submission>, s: Submission, datetimeStr: int -> string)
    ensures PairKeys(subs + [s], datetimeStr) == PairKeys(subs, datetimeStr) + Repeat(SubmissionKey(s, datetimeStr), |s.comments|)
  {
    PairsConcat(subs, [s]);
    assert [s][..0] == [];
  }

  /** A submission whose id no earlier submission has differs in its fields
      from every earlier pair's submission. */
  lemma FreshKey(subs: seq<Submission>, s: Submission, datetimeStr: int -> string)
    requires forall m | 0 <= m < |subs| :: subs[m].id != s.id
    ensures SubmissionKey(s, datetimeStr) !in PairKeys(subs, datetimeStr)
  {
    PairsCount(subs);
    var keys := PairKeys(subs, datetimeStr);
    forall i | 0 <= i < |keys| ensures keys[i] != SubmissionKey(s, datetimeStr) {
      var owner := Pairs(subs)[i].0;
      assert keys[i][1] == Str(owner.id);
    }
  }

  /** With distinct ids, de-duplicating the submission fields of all pairs
      keeps exactly one copy per submission that has comments, in order. */
  lemma {:induction false} DistinctPairKeys(subs: seq<Submission>, datetimeStr: int -> string)
    requires DistinctIds(subs)
    ensures Distinct(PairKeys(subs, datetimeStr)) == Keys(Filter(subs, HasComments), datetimeStr)
    decreases |subs|
  {
    if subs != [] {
      var n := |subs| - 1;
      var init, s := subs[..n], subs[n];
      assert subs == init + [s];
      assert DistinctIds(init);
      DistinctPairKeys(init, datetimeStr);
      PairKeysSnoc(init, s, datetimeStr);
      var key := SubmissionKey(s, datetimeStr);
      assert forall m | 0 <= m < n :: init[m].id != s.id by {
        assert forall m | 0 <= m < n :: init[m] == subs[m];
      }
      FreshKey(init, s, datetimeStr);
      DistinctAppendRepeat(PairKeys(init, datetimeStr), key, |s.comments|);
      var c := Filter(init, HasComments);
      FilterSnoc(init, s, HasComments);
      var d := Distinct(PairKeys(subs, datetimeStr));
      if HasComments(s) {
        assert d == Keys(c, datetimeStr) + [key];
        KeysSnoc(c, s, datetimeStr);
      } else {
        assert d == Keys(c, datetimeStr);
      }
    }
  }

  /** With distinct submission ids, the long table holds exactly one
      "submission" record per submission that has comments, in fetch order,
      followed by one "comment" record per comment. */
  lemma LongRowsByRecord(subs: seq<Submission>, datetimeStr: int -> string)
    requires DistinctIds(subs)
    ensures var c := Filter(subs, HasComments);
            LongRows(subs, datetimeStr)
            == seq(|c|, k requires 0 <= k < |c| => SubmissionKey(c[k], datetimeStr) + [Str("submission")])
               + CommentRecords(subs, datetimeStr)
    ensures |CommentRecords(subs, datetimeStr)| == CommentCount(subs)
  {
    var c := Filter(subs, HasComments);
    var heads := AppendEach(Keys(c, datetimeStr), Str("submission"));
    assert LongRows(subs, datetimeStr) == heads + CommentRecords(subs, datetimeStr) by {
      DistinctPairKeys(subs, datetimeStr);
    }
    assert heads == seq(|c|, k requires 0 <= k < |c| => SubmissionKey(c[k], datetimeStr) + [Str("submission")]);
    assert |CommentRecords(subs, datetimeStr)| == CommentCount(subs) by {
      PairsCount(subs);
    }
  }

  /** One row spread over the tickers its body mentions: once per ticker, in
      the order found, each copy carrying a ticker of the list that occurs
      as a space-separated token of the body, without its dollar signs; a
      body mentioning none keeps the row once with a missing ticker. */
  lemma SpreadTickers(row: seq<Cell>, tickerList: seq<string>)
    requires |row| == |FINAL_COL_NAMES| && row[BODY].Str?
    ensures var found := Text.TickersInText(row[BODY].s, tickerList);
            var out := Spread(row, DollarFree(found));
            && |out| == (if found == [] then 1 else |found|)
            && (found == [] ==> out == [row + [Missing]])
            && forall m | 0 <= m < |found| ::
                 && out[m] == row + [Str(Text.RemoveDollar(found[m]))]
                 && found[m] in Text.Split(row[BODY].s) && found[m] in tickerList
  {
  }

  /** A body that mentions a listed symbol both bare and with a dollar sign
      gives two copies of its row, both tagged with the bare symbol. */
  lemma DollarTwins(row: seq<Cell>, tickerList: seq<string>, t: string)
    requires |row| == |FINAL_COL_NAMES| && row[BODY].Str? && '$' !in t
    requires t in tickerList && "$" + t in tickerList
    requires t in Text.Split(row[BODY].s) && "$" + t in Text.Split(row[BODY].s)
    ensures var out := Spread(row, DollarFree(Text.TickersInText(row[BODY].s, tickerList)));
            exists m1, m2 | 0 <= m1 < m2 < |out| :: out[m1] == row + [Str(t)] && out[m2] == row + [Str(t)]
  {
    var found := Text.TickersInText(row[BODY].s, tickerList);
    var out := Spread(row, DollarFree(found));
    assert t in found && "$" + t in found;
    var i :| 0 <= i < |found| && found[i] == t;
    var j :| 0 <= j < |found| && found[j] == "$" + t;
    assert i != j by {
      assert |found[j]| == |t| + 1;
    }
    assert out[i] == row + [Str(t)] && out[j] == row + [Str(t)] by {
      SpreadTickers(row, tickerList);
      Text.RemoveDollarVariant(t);
    }
    var m1, m2 := if i < j then i else j, if i < j then j else i;
    assert out[m1] == row + [Str(t)] && out[m2] == row + [Str(t)];
  }

  /** Every row of the tagged table is a row of the cleaned table followed by
      a ticker cell, missing or dollar-free text, and every row of the
      cleaned table appears in it. */
  lemma TaggedRowsCover(rows: seq<seq<Cell>>, tickerList: seq<string>)
    requires LongShaped(rows)
    ensures forall o: seq<Cell> | o in TaggedRows(rows, tickerList) ::
              |o| == |FINAL_COL_NAMES| + 1 && o[..|FINAL_COL_NAMES|] in rows
              && (o[|FINAL_COL_NAMES|] == Missing || (o[|FINAL_COL_NAMES|].Str? && '$' !in o[|FINAL_COL_NAMES|].s))
    ensures forall i | 0 <= i < |rows| :: rows[i] in Prefixes(TaggedRows(rows, tickerList), |FINAL_COL_NAMES|)
  {
    var found := TickerLists(rows, tickerList);
    var lists := DollarFreeLists(found);
    forall i, m | 0 <= i < |lists| && 0 <= m < |lists[i]| ensures '$' !in lists[i][m] {
      assert lists[i][m] == Text.RemoveDollar(found[i][m]);
    }
    SpreadRowsCover(rows, lists, |FINAL_COL_NAMES|);
    SpreadRowsKeepsRows(rows, lists, |FINAL_COL_NAMES|);
  }
}
