/** The procedural twin of the pipeline, written as module-level functions:
    an older vocabulary builder, wide rows that also carry a date column for
    each timestamp, the comment and submission parts of the long table built
    by separate functions, and ticker tagging without dollar stripping. */
module DataPreprocess {
  import opened Collections
  import opened Frames
  import Text
  import TickerData
  import opened RedditData

  const CLEAN_COLUMNS: seq<string> := [
    "submission_title", "submission_id", "author", "body", "datetime", "date", "id", "score", "type"]

  const REDDIT_COLUMNS: seq<string> := [
    "submission_title", "submission_author", "submission_body", "submission_score",
    "submission_id", "submission_datetime", "submission_date", "comment_author",
    "comment_body", "comment_datetime", "comment_date", "comment_id", "comment_score"]

  lemma ColumnFacts()
    ensures NoDuplicates(CLEAN_COLUMNS) && NoDuplicates(REDDIT_COLUMNS)
  {
  }

  // ---------------------------------------------------------------------
  // Vocabulary

  predicate SingleLetter(t: string) { |t| == 1 }

  /** Leaving out the excluded symbols and then the one-letter symbols of the
      list is what removing exceptions does. */
  lemma NotInFullExceptions(tickerList: seq<string>, exceptionList: seq<string>, notExcepted: string -> bool)
    requires forall t :: notExcepted(t) == (t !in exceptionList + Filter(tickerList, SingleLetter))
    ensures Filter(tickerList, notExcepted) == TickerData.RemoveExceptions(tickerList, exceptionList)
  {
    var full := exceptionList + Filter(tickerList, SingleLetter);
    forall i | 0 <= i < |tickerList|
      ensures notExcepted(tickerList[i]) == TickerData.Kept(tickerList[i], exceptionList)
    {
      if |tickerList[i]| == 1 {
        assert tickerList[i] in Filter(tickerList, SingleLetter);
      }
    }
    FilterCongruent(tickerList, notExcepted, t => TickerData.Kept(t, exceptionList));
    TickerData.RemoveExceptionsIsFilter(tickerList, exceptionList);
  }

  /** `process_ticker_list`: the dollar spelling of every input symbol,
      excluded and one-letter ones included, then the input symbols that are
      neither excluded nor one letter long; nothing is de-duplicated. */
  function ProcessTickerList(tickerList: seq<string>, exceptionList: seq<string>): (r: seq<string>)
    ensures |r| >= |tickerList|
    ensures forall i | 0 <= i < |tickerList| :: r[i] == "$" + tickerList[i]
    ensures r[|tickerList|..] == TickerData.RemoveExceptions(tickerList, exceptionList)
  {
    var fullExceptionList := exceptionList + Filter(tickerList, SingleLetter);
    var dollarTickerList := TickerData.Dollars(tickerList);
    var noException := Filter(tickerList, t => t !in fullExceptionList);
    NotInFullExceptions(tickerList, exceptionList, t => t !in fullExceptionList);
    assert (dollarTickerList + noException)[|tickerList|..] == noException;
    dollarTickerList + noException
  }

  /** The older list is the dollar spelling of every input symbol followed by
      the vocabulary's kept symbols, so it is as long as the input plus the
      kept symbols, however often a symbol repeats. */
  lemma ProcessTickerListParts(tickerList: seq<string>, exceptionList: seq<string>)
    ensures ProcessTickerList(tickerList, exceptionList)
            == TickerData.Dollars(tickerList) + TickerData.RemoveExceptions(tickerList, exceptionList)
    ensures |ProcessTickerList(tickerList, exceptionList)|
            == |tickerList| + |TickerData.RemoveExceptions(tickerList, exceptionList)|
  {
    var r := ProcessTickerList(tickerList, exceptionList);
    assert r[..|tickerList|] == TickerData.Dollars(tickerList);
    assert r == r[..|tickerList|] + r[|tickerList|..];
  }

  // ---------------------------------------------------------------------
  // Wide rows with dates

  /** The submission's seven fields; `stamp` gives the date-time text and the date text. */
  function SubmissionInfo(s: Submission, stamp: int -> (string, string)): seq<Cell> {
    var st := stamp(s.createdUtc);
    [Str(s.title), Str(s.author), Str(s.selftext), Int(s.score), Str(s.id), Str(st.0), Str(st.1)]
  }

  /** `save_comment`: the submission fields followed by the comment's
      fields, as a row labelled by the thirteen wide columns; a submission
      part of the wrong size is a length error. */
  function SaveComment(c: Comment, submissionInfoList: seq<Cell>, stamp: int -> (string, string))
    : (r: Result<seq<Cell>, FrameError>)
    ensures r.Ok? <==> |submissionInfoList| == 7
    ensures r.Err? ==> r.error == LengthMismatch(|REDDIT_COLUMNS|, |submissionInfoList| + 6)
    ensures r.Ok? ==> |r.value| == |REDDIT_COLUMNS| && r.value[..7] == submissionInfoList
  {
    var st := stamp(c.createdUtc);
    var commentInfoList := [Str(c.author), Str(c.body), Str(st.0), Str(st.1), Str(c.id), Int(c.score)];
    var appendRow := submissionInfoList + commentInfoList;
    if |appendRow| == |REDDIT_COLUMNS| then Ok(appendRow)
    else Err(LengthMismatch(|REDDIT_COLUMNS|, |appendRow|))
  }

  /** The comment part of the row sits under the six comment columns:
      author, body, date-time, date, id and score. */
  lemma SaveCommentFields(c: Comment, submissionInfoList: seq<Cell>, stamp: int -> (string, string))
    requires |submissionInfoList| == 7
    ensures var row := SaveComment(c, submissionInfoList, stamp).value;
            && Get(REDDIT_COLUMNS, row, "comment_author") == Str(c.author)
            && Get(REDDIT_COLUMNS, row, "comment_body") == Str(c.body)
            && Get(REDDIT_COLUMNS, row, "comment_datetime") == Str(stamp(c.createdUtc).0)
            && Get(REDDIT_COLUMNS, row, "comment_date") == Str(stamp(c.createdUtc).1)
            && Get(REDDIT_COLUMNS, row, "comment_id") == Str(c.id)
            && Get(REDDIT_COLUMNS, row, "comment_score") == Int(c.score)
  {
    var row := SaveComment(c, submissionInfoList, stamp).value;
    ColumnFacts();
    GetAt(REDDIT_COLUMNS, row, 7);
    GetAt(REDDIT_COLUMNS, row, 8);
    GetAt(REDDIT_COLUMNS, row, 9);
    GetAt(REDDIT_COLUMNS, row, 10);
    GetAt(REDDIT_COLUMNS, row, 11);
    GetAt(REDDIT_COLUMNS, row, 12);
  }

  /** The wide rows of one submission, one per comment. */
  function SubmissionRows(s: Submission, stamp: int -> (string, string)): (rows: seq<seq<Cell>>)
    ensures |rows| == |s.comments|
    ensures forall j | 0 <= j < |rows| :: |rows[j]| == |REDDIT_COLUMNS|
    ensures forall j | 0 <= j < |rows| :: rows[j] == SaveComment(s.comments[j], SubmissionInfo(s, stamp), stamp).value
  {
    seq(|s.comments|, j requires 0 <= j < |s.comments| => SaveComment(s.comments[j], SubmissionInfo(s, stamp), stamp).value)
  }

  /** `save_submission`: one wide row per comment, in comment order; no
      comment, no row. */
  method SaveSubmission(s: Submission, stamp: int -> (string, string)) returns (submissionDf: Frame)
    ensures submissionDf.columns == REDDIT_COLUMNS
    ensures |submissionDf.rows| == |s.comments|
    ensures forall j | 0 <= j < |s.comments| ::
              submissionDf.rows[j] == SaveComment(s.comments[j], SubmissionInfo(s, stamp), stamp).value
  {
    ColumnFacts();
    submissionDf := Empty(REDDIT_COLUMNS);
    var submissionInfoList := SubmissionInfo(s, stamp);
    for i := 0 to |s.comments|
      invariant submissionDf.columns == REDDIT_COLUMNS
      invariant submissionDf.rows == SubmissionRows(s, stamp)[..i]
    {
      var appendSeries := SaveComment(s.comments[i], submissionInfoList, stamp).value;
      AppendSameColumns(submissionDf, Frame(REDDIT_COLUMNS, [appendSeries]));
      submissionDf := Append(submissionDf, Frame(REDDIT_COLUMNS, [appendSeries]));
      assert SubmissionRows(s, stamp)[..i + 1] == SubmissionRows(s, stamp)[..i] + [appendSeries];
    }
  }

  /** The wide rows of the submissions, submission after submission. */
  function WideRows(subs: seq<Submission>, stamp: int -> (string, string)): (rows: seq<seq<Cell>>)
    ensures forall i | 0 <= i < |rows| :: |rows[i]| == |REDDIT_COLUMNS|
    decreases |subs|
  {
    if subs == [] then []
    else WideRows(subs[..|subs| - 1], stamp) + SubmissionRows(subs[|subs| - 1], stamp)
  }

  /** One wide row per comment of the submissions. */
  lemma {:induction false} WideRowsCount(subs: seq<Submission>, stamp: int -> (string, string))
    ensures |WideRows(subs, stamp)| == CommentCount(subs)
    decreases |subs|
  {
    if subs != [] {
      WideRowsCount(subs[..|subs| - 1], stamp);
    }
  }

  /** `save_subreddit`: the wide rows of the newest `extractLimit`
      submissions of the listing, submission after submission. */
  method SaveSubreddit(listing: seq<Submission>, extractLimit: nat, stamp: int -> (string, string))
    returns (redditMainData: Frame)
    ensures redditMainData.columns == REDDIT_COLUMNS
    ensures redditMainData.rows == WideRows(Newest(listing, extractLimit), stamp)
  {
    ColumnFacts();
    redditMainData := Empty(REDDIT_COLUMNS);
    var subs := Newest(listing, extractLimit);
    for i := 0 to |subs|
      invariant redditMainData == Frame(REDDIT_COLUMNS, WideRows(subs[..i], stamp))
    {
      var submissionDf := SaveSubmission(subs[i], stamp);
      assert submissionDf.rows == SubmissionRows(subs[i], stamp);
      AppendSameColumns(redditMainData, submissionDf);
      redditMainData := Append(redditMainData, submissionDf);
      assert subs[..i + 1][..i] == subs[..i];
    }
    assert subs[..|subs|] == subs;
  }

  // ---------------------------------------------------------------------
  // The long table

  /** `create_comment_df`: the asked columns of every row, each typed "comment". */
  function CreateCommentDf(redditDf: Frame, commentColumns: seq<string>): (r: Result<Frame, FrameError>)
    requires Rectangular(redditDf)
    ensures r.Ok? <==> forall k | 0 <= k < |commentColumns| :: commentColumns[k] in redditDf.columns
    ensures r.Err? ==> r.error.KeyError? && r.error.column !in redditDf.columns
    ensures r.Ok? ==> |r.value.rows| == |redditDf.rows| && Rectangular(r.value)
    ensures r.Ok? ==> forall i | 0 <= i < |r.value.rows| :: Get(r.value.columns, r.value.rows[i], "type") == Str("comment")
    ensures r.Ok? && "type" !in commentColumns ==>
              r.value.columns == commentColumns + ["type"]
              && forall i | 0 <= i < |redditDf.rows| ::
                   r.value.rows[i] == Pick(redditDf.columns, redditDf.rows[i], commentColumns) + [Str("comment")]
    ensures r.Ok? && "type" in commentColumns ==>
              r.value.columns == commentColumns
              && forall i, k | 0 <= i < |redditDf.rows| && 0 <= k < |commentColumns| ::
                   r.value.rows[i][k] == if commentColumns[k] == "type" then Str("comment")
                                         else Get(redditDf.columns, redditDf.rows[i], commentColumns[k])
  {
    var dfComment :- Select(redditDf, commentColumns);
    AssignConstantGet(dfComment, "type", Str("comment"));
    Ok(AssignConstant(dfComment, "type", Str("comment")))
  }

  /** `create_submission_df`: the asked columns typed "submission", then the
      first occurrence of each distinct row. */
  function CreateSubmissionDf(redditDf: Frame, submissionColumns: seq<string>): (r: Result<Frame, FrameError>)
    requires Rectangular(redditDf)
    ensures r.Ok? <==> forall k | 0 <= k < |submissionColumns| :: submissionColumns[k] in redditDf.columns
    ensures r.Err? ==> r.error.KeyError? && r.error.column !in redditDf.columns
    ensures r.Ok? ==> NoDuplicates(r.value.rows) && Rectangular(r.value) && |r.value.rows| <= |redditDf.rows|
    ensures r.Ok? ==> forall i | 0 <= i < |r.value.rows| :: Get(r.value.columns, r.value.rows[i], "type") == Str("submission")
    ensures r.Ok? && "type" !in submissionColumns ==>
              r.value.columns == submissionColumns + ["type"]
              && forall row :: row in r.value.rows <==>
                   exists i | 0 <= i < |redditDf.rows| ::
                     row == Pick(redditDf.columns, redditDf.rows[i], submissionColumns) + [Str("submission")]
  {
    var dfSubmission :- Select(redditDf, submissionColumns);
    var typed := AssignConstant(dfSubmission, "type", Str("submission"));
    AssignConstantGet(dfSubmission, "type", Str("submission"));
    var unique := DropDuplicates(typed);
    assert forall i | 0 <= i < |unique.rows| :: unique.rows[i] in typed.rows;
    if "type" !in submissionColumns then
      assert typed.rows == AppendEach(dfSubmission.rows, Str("submission")) by {
        AssignConstantNew(dfSubmission, "type", Str("submission"));
      }
      Ok(unique)
    else
      Ok(unique)
  }

  /** Typing before de-duplicating, as here, gives the same table as typing
      after it, as the class version does, when the type column is new. */
  lemma TypeThenDedupe(redditDf: Frame, submissionColumns: seq<string>)
    requires Rectangular(redditDf) && "type" !in submissionColumns
    requires forall k | 0 <= k < |submissionColumns| :: submissionColumns[k] in redditDf.columns
    ensures CreateSubmissionDf(redditDf, submissionColumns)
            == Ok(AssignConstant(DropDuplicates(Select(redditDf, submissionColumns).value), "type", Str("submission")))
  {
    var sel := Select(redditDf, submissionColumns).value;
    var v := Str("submission");
    assert AssignConstant(sel, "type", v).rows == AppendEach(sel.rows, v);
    assert AssignConstant(DropDuplicates(sel), "type", v).rows == AppendEach(Distinct(sel.rows), v);
    DistinctAppendEach(sel.rows, v);
  }

  /** `combine_submission_comment`: both parts relabelled with the nine clean
      names, appended to an empty table with that header, submissions first;
      a part without nine columns is a length error. */
  function CombineSubmissionComment(dfComment: Frame, dfSubmission: Frame): (r: Result<Frame, FrameError>)
    requires Rectangular(dfComment) && Rectangular(dfSubmission)
    ensures r.Ok? <==> |dfComment.columns| == |CLEAN_COLUMNS| && |dfSubmission.columns| == |CLEAN_COLUMNS|
    ensures r.Err? ==> r.error.LengthMismatch?
    ensures r.Ok? ==> r.value == Frame(CLEAN_COLUMNS, dfSubmission.rows + dfComment.rows)
  {
    var df := Empty(CLEAN_COLUMNS);
    var dfComment :- Rename(dfComment, CLEAN_COLUMNS);
    var dfSubmission :- Rename(dfSubmission, CLEAN_COLUMNS);
    ColumnFacts();
    AppendSameColumns(df, dfSubmission);
    var dfCombined := Append(df, dfSubmission);
    AppendSameColumns(dfCombined, dfComment);
    Ok(Append(dfCombined, dfComment))
  }

  // ---------------------------------------------------------------------
  // Tagging

  function FoundTickers(fullTickerList: seq<string>, text: string): Cell {
    Items(Text.TickersInText(text, fullTickerList))
  }

  /** `create_ticker_column`: a new column holding the tickers each text
      mentions, exploded to one row per ticker; the tickers keep their dollar signs. */
  function CreateTickerColumn(df: Frame, textColumn: string, newColumnName: string, fullTickerList: seq<string>)
    : (r: Result<Frame, FrameError>)
    requires Rectangular(df)
    ensures r.Ok? <==> textColumn in df.columns && forall i | 0 <= i < |df.rows| :: Get(df.columns, df.rows[i], textColumn).Str?
    ensures r.Err? ==> r.error == if textColumn in df.columns then NotText(textColumn) else KeyError(textColumn)
    ensures r.Ok? ==> newColumnName in r.value.columns && Rectangular(r.value)
  {
    var found :- ApplyText(df, textColumn, text => FoundTickers(fullTickerList, text));
    var tagged := Assign(df, newColumnName, found);
    ExplodeRectangular(tagged, newColumnName);
    // The new column exists now, so exploding cannot fail.
    Ok(Explode(tagged, newColumnName).value)
  }

  /** The tickers each row's text mentions. */
  function TextTickers(df: Frame, textColumn: string, fullTickerList: seq<string>): (lists: seq<seq<string>>)
    requires Rectangular(df) && textColumn in df.columns
    requires forall i | 0 <= i < |df.rows| :: Get(df.columns, df.rows[i], textColumn).Str?
    ensures |lists| == |df.rows|
  {
    seq(|df.rows|, i requires 0 <= i < |df.rows| =>
          Text.TickersInText(Get(df.columns, df.rows[i], textColumn).s, fullTickerList))
  }

  /** With a new column name, every row is spread over the tickers its text
      mentions, dollar signs kept: max(k, 1) rows for k tickers. */
  lemma CreateTickerColumnRows(df: Frame, textColumn: string, newColumnName: string, fullTickerList: seq<string>)
    requires Rectangular(df) && newColumnName !in df.columns && textColumn in df.columns
    requires forall i | 0 <= i < |df.rows| :: Get(df.columns, df.rows[i], textColumn).Str?
    ensures CreateTickerColumn(df, textColumn, newColumnName, fullTickerList)
            == Ok(Frame(df.columns + [newColumnName], SpreadRows(df.rows, TextTickers(df, textColumn, fullTickerList))))
    ensures |CreateTickerColumn(df, textColumn, newColumnName, fullTickerList).value.rows|
            == SpreadSize(TextTickers(df, textColumn, fullTickerList))
  {
    var lists := TextTickers(df, textColumn, fullTickerList);
    var found := ApplyText(df, textColumn, text => FoundTickers(fullTickerList, text)).value;
    assert found == seq(|lists|, i requires 0 <= i < |lists| => Items(lists[i]));
    ExplodeNewColumn(df, newColumnName, lists);
    SpreadRowsCount(df.rows, lists);
  }
}
