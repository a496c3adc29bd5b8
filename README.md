# reddit_stonks extraction pipeline in Dafny

This project models the extraction and normalisation core of reddit_stonks.
It has two parts.

- **Ticker vocabulary** (`TickerData`, and the older `process_ticker_list`):
  - concatenate the symbol column of every listing and remove duplicates;
  - drop the excluded symbols and the one-letter symbols;
  - add the `$`-prefixed spelling of each survivor.
- **Thread normaliser** (`RedditData`, and the procedural twin in
  `data_preprocess.py`):
  - each comment of a submission becomes one wide row: the submission's fields, then the comment's;
  - the wide table is reshaped into a long table: the distinct submission records typed `"submission"` come first, then one record per comment typed `"comment"`;
  - bodies are cleaned with a character class;
  - each body is split on a single space and intersected with the vocabulary;
  - the table is exploded to one row per matched ticker, and the `$` is stripped from each ticker.

pandas DataFrames are values, `Frames.Frame(columns, rows)`:
- A cell is text, an integer, a list of strings (a list-valued column before `explode`), or missing (NaN).
- A column read by name gives the first column so named. (pandas would return every column of that label; see "## Left out".)
- The pandas operations the core uses are functions on frames. These are column selection, column assignment, relabelling, `drop_duplicates` (keep the first occurrence), `append` (columns unioned, rows realigned by name) and `explode`.
- A missing column is `KeyError`, and a relabelling of the wrong length is `LengthMismatch`. `Series.apply` of a text function to a non-text cell is `NotText`. The model returns these errors where pandas would raise. `str.replace` does not raise: it turns a non-text cell into a missing one, and so does the model (`Frames.StripCell`).

The files:
- `collections.dfy`: `Result`, filters, first-occurrence de-duplication and subsequences.
- `text.dfy`: the character filter, `split(" ")` and join, dollar removal, and ticker matching.
- `frames.dfy`: the frame values and pandas operations.
- `ticker_data.dfy`: `ticker_data.py`.
- `reddit_data.dfy`: `reddit_data.py`.
- `data_preprocess.py` is modelled in `data_preprocess.dfy`.

The loops that grow a list or a table step by step are methods whose loop invariants tie the accumulator to a specification function:
- `read_ticker_file`
- `save_submission` and `save_subreddit`, in both files
- `create_data` in `reddit_data.py`

The rest are functions, except `TickerData.CreateData`. It has no loop, but it is a method because it calls the method `TickerData.ReadTickerFile`. The lemmas relate the whole pipeline to a closed description of its output.

The two `TickerData`/`RedditData` classes never change their fields after construction. Their fields are therefore parameters: the listing sources, the exception list, the subreddit list, the number of posts and the vocabulary.

Behaviour of the program worth knowing, which the model keeps:
- A submission with no comments yields no row, so the output has no root record for that thread. It gives neither a wide row nor a submission record (`RedditData.SilentSubmissionVanishes`).
- Bodies are split on a single space character, not on any whitespace. Two adjacent spaces give an empty token.
- The record types are `"submission"` and `"comment"`.
- The record id of a submission record is the submission id, read a second time (`submission_columns` lists `submission_id` twice).

## Model

| member | source | states |
|---|---|---|
| TickerData.ReadTickerFile | src/data_extraction/ticker_data.py:34-53 | On success the list has no duplicates, and a symbol is in it exactly when some listing's column holds it. A listing without the column gives `KeyError` for that column, and that is the only failure. |
| TickerData.ColumnsMembership | src/data_extraction/ticker_data.py:45-48 | A symbol is in the concatenation of the first n columns exactly when one of those columns holds it. |
| TickerData.RemoveExceptions | src/data_extraction/ticker_data.py:55-72 | A symbol survives exactly when it is an input, is not excluded and is not one character long. Survivors keep their relative order (a subsequence), and each keeps all its occurrences. The output has no duplicates when the input has none. |
| TickerData.RemoveExceptionsIsFilter | src/data_extraction/ticker_data.py:67-70 | The two comprehensions together equal one filter by "not excluded and not one character long". |
| TickerData.CreateVariation | src/data_extraction/ticker_data.py:74-88 | The output has length 2n. It contains exactly the inputs and their `$` spellings; entry i is input i and entry n+i is `"$"` + input i. |
| TickerData.VariationNoDuplicates | src/data_extraction/ticker_data.py:85-86 | A duplicate-free input with no `$`-leading symbol gives a duplicate-free output. |
| TickerData.CreateData | src/data_extraction/ticker_data.py:19-32 | The output contains exactly the kept listed symbols and `"$"` + each of them. A listing without `Symbol` is a `KeyError`. The output has no duplicates when no listed symbol starts with `$`. |
| Text.Clean | src/data_extraction/reddit_data.py:249-250 | Every remaining character is a word character, a whitespace character or `$`. |
| Text.CleanKeepsAllowed | src/data_extraction/reddit_data.py:249-250 | The cleaned body is a subsequence of the body. Every allowed character keeps all its occurrences and every other character has none. |
| Text.CleanByCharacter | src/data_extraction/reddit_data.py:249-250 | Cleaning distributes over concatenation. A single character is kept exactly when it is allowed. |
| Text.CleanIdempotent | src/data_extraction/reddit_data.py:249-250 | Cleaning twice is cleaning once. |
| Text.Split | src/data_extraction/reddit_data.py:285 | `split(" ")` never returns an empty list, and no piece holds a space. |
| Text.JoinSplit | src/data_extraction/reddit_data.py:285 | Joining the pieces with single spaces gives the text back. |
| Text.SplitJoin | src/data_extraction/reddit_data.py:285 | Splitting a space-joined list of space-free tokens gives the tokens back. |
| Text.TickersInText | src/data_extraction/reddit_data.py:275-288 | The result has no duplicates. A symbol is in it exactly when it is a space-separated token of the text and is in the vocabulary. |
| Text.RemoveDollar | src/data_extraction/reddit_data.py:271 | The result has no `$`. It is a subsequence of the input, and every other character keeps all its occurrences. |
| Text.RemoveDollarVariant | src/data_extraction/reddit_data.py:271 | Both `t` and `"$" + t` become `t`, for a `$`-free `t`. |
| Frames.ExplodeNewColumn | src/data_extraction/reddit_data.py:265-268 | Writing a new list column and exploding it spreads each row over its list, in order: one copy per value, or a single copy with a missing value for an empty list. |
| Frames.SpreadRowsCount | src/data_preprocess.py:190-191 | The exploded table has max(k, 1) rows for each row with k values. |
| Frames.SpreadRowsCover | src/data_extraction/reddit_data.py:268-271 | Every exploded row is an input row followed by one cell: a missing cell, or a value. |
| Frames.SpreadRowsKeepsRows | src/data_extraction/reddit_data.py:268 | Every input row survives the explode as the prefix of some output row. |
| Frames.DropDuplicatesKeepsFirst | src/data_extraction/reddit_data.py:227 | `drop_duplicates` keeps first occurrences: the rows kept from any leading part of the table are the first rows of the result, in the same order. |
| Collections.DistinctPrefix | src/data_preprocess.py:150 | De-duplicating a prefix of a list gives a prefix of the de-duplicated list, so each value stands where it first occurs. |
| RedditData.WideRowFields | src/data_extraction/reddit_data.py:111-135 | Read by column name under the eleven wide columns, a wide row holds the submission's six fields and then the comment's author, body, date-time, id and score. |
| RedditData.SaveSubmission | src/data_extraction/reddit_data.py:137-182 | One row per comment, in comment order. Row j is the six submission fields followed by comment j's five fields. |
| RedditData.PairsCount | src/data_extraction/reddit_data.py:175-180 | There is one (submission, comment) pair per comment, and each pair's comment belongs to that pair's submission. |
| RedditData.WideRowsSnoc | src/data_extraction/reddit_data.py:204-206 | The wide rows of one more submission are the earlier wide rows followed by that submission's rows: one per comment, in comment order. |
| RedditData.WideRowsConcat | src/data_extraction/reddit_data.py:204-206 | The wide rows of a concatenation are the concatenation of the wide rows. |
| RedditData.Newest | src/data_extraction/reddit_data.py:204 | Taking at most `limit` submissions gives the listing's first min(limit, length) submissions. |
| RedditData.SaveSubreddit | src/data_extraction/reddit_data.py:184-208 | The table holds the wide rows of the newest `extractLimit` submissions, submission after submission, under the eleven wide columns. |
| RedditData.CollectedShape | src/data_extraction/reddit_data.py:84-89 | Appending the subreddit tables to an empty table with the final header gives every fetched wide row, realigned by name to the union of the two headers, in subreddit order. |
| RedditData.TransformData | src/data_extraction/reddit_data.py:210-237 | It succeeds exactly when every comment column and every submission column is present; otherwise it is a `KeyError` naming an absent column. On success the header is the eight final names. |
| RedditData.TransformDataRows | src/data_extraction/reddit_data.py:222-235 | The distinct submission records, read by name and typed `"submission"`, come first, then one `"comment"` record per input row carrying that row's title and id. |
| RedditData.TransformCollected | src/data_extraction/reddit_data.py:90 | Reshaping the collected table gives the long rows of the fetched submissions. |
| RedditData.LongRowsByRecord | src/data_extraction/reddit_data.py:226-235 | With distinct submission ids, there is one submission record for each submission that has comments, in order, followed by one comment record per comment. |
| RedditData.DistinctPairKeys | src/data_extraction/reddit_data.py:227 | With distinct submission ids, de-duplicating the per-comment submission fields leaves the fields of each submission that has comments, once each, in order. |
| RedditData.SilentSubmissionVanishes | src/data_extraction/reddit_data.py:175-180 | A submission without comments, wherever it stands, changes neither the wide rows nor the long rows. |
| RedditData.TransformEmpty | src/data_extraction/reddit_data.py:84-90 | With no subreddit the collected table has only the final header, and the reshape fails with a `KeyError` naming `comment_author`, the first comment column the header lacks. |
| RedditData.RemoveUnwantedChar | src/data_extraction/reddit_data.py:239-252 | It succeeds exactly when a `body` column exists and every body is text. Every body becomes its cleaned text and every other cell is unchanged. The error is `KeyError` or `NotText`. |
| RedditData.RemoveUnwantedCharRows | src/data_extraction/reddit_data.py:250 | On the long table, cleaning rewrites each row's body and nothing else. |
| RedditData.ExtractTicker | src/data_extraction/reddit_data.py:254-273 | It succeeds exactly when a `body` column exists and every body is text, and the result has a `ticker` column. The error is `KeyError` or `NotText`. |
| RedditData.ExtractTickerRows | src/data_extraction/reddit_data.py:265-271 | On the long table the result is each row spread over the dollar-free tickers its body mentions, under the final header plus `ticker`. |
| RedditData.SpreadTickers | src/data_extraction/reddit_data.py:265-271 | A row with k ≥ 1 matches becomes k copies that differ only in the ticker. Each ticker is a matched token, `$`-stripped. A row with no match becomes one copy with a missing ticker. |
| RedditData.DollarTwins | src/data_extraction/reddit_data.py:265-271 | A body holding both `t` and `$t`, both in the vocabulary, gives two rows, both tagged `t`. |
| RedditData.TaggedRowsCover | src/data_extraction/reddit_data.py:268-271 | Every tagged row is a cleaned row followed by a missing or `$`-free ticker, and every cleaned row appears in the tagged table. |
| RedditData.CreateData | src/data_extraction/reddit_data.py:74-94 | The result is the fetched submissions' long rows, cleaned and then tagged, in subreddit order. An empty subreddit list is a `KeyError` naming `comment_author`, and that is the only failure. |
| DataPreprocess.ProcessTickerList | src/data_preprocess.py:21-31 | The first n entries are `"$"` + each input, excluded and one-letter symbols included. The rest are exactly the inputs that are neither excluded nor one letter long, in order, duplicates kept. |
| DataPreprocess.NotInFullExceptions | src/data_preprocess.py:22-28 | Filtering against the exclusions extended with the one-letter symbols is the same as removing exceptions. |
| DataPreprocess.ProcessTickerListParts | src/data_preprocess.py:25-31 | The older list is the `$` spelling of every input symbol, excluded and one-letter ones included, followed by the symbols the vocabulary keeps. So its length is the input length plus the number of kept symbols. |
| DataPreprocess.SaveComment | src/data_preprocess.py:61-86 | The row starts with the seven submission fields and has thirteen cells. A submission part of another size is a length error, as labelling a Series would be. |
| DataPreprocess.SaveCommentFields | src/data_preprocess.py:74-84 | Under the thirteen wide columns, the comment part is author, body, date-time, date, id and score. |
| DataPreprocess.SaveSubmission | src/data_preprocess.py:89-122 | One row per comment, in order, with zero rows for no comments. Row j is the saved row of comment j. |
| DataPreprocess.WideRowsCount | src/data_preprocess.py:133-135 | There is one wide row per comment over all submissions. |
| DataPreprocess.SaveSubreddit | src/data_preprocess.py:125-137 | The newest `extractLimit` submissions' rows, submission after submission, under the thirteen columns. |
| DataPreprocess.CreateCommentDf | src/data_preprocess.py:140-144 | Every row is kept and typed `"comment"`. When `type` is a new name, the header is the asked columns plus `type` and row i is the asked cells of input row i, read by name, then `"comment"`; when it is an asked name, that column is overwritten. Missing columns give `KeyError`. |
| DataPreprocess.CreateSubmissionDf | src/data_preprocess.py:147-152 | The rows are distinct and typed `"submission"`, and there are no more of them than input rows. When `type` is a new name, the header is the asked columns plus `type`, and a row is present exactly when it is the asked cells of some input row followed by `"submission"`. Missing columns give `KeyError`. |
| DataPreprocess.TypeThenDedupe | src/data_preprocess.py:148-150 | Typing then de-duplicating equals de-duplicating then typing (the order in `transform_data`) when the type column is new. |
| DataPreprocess.CombineSubmissionComment | src/data_preprocess.py:160-170 | The result has the nine clean headers and holds all submission rows followed by all comment rows. A part without nine columns is a length error. |
| DataPreprocess.CreateTickerColumn | src/data_preprocess.py:181-193 | It succeeds exactly when the text column exists and holds text, and the new column is present afterwards. |
| DataPreprocess.CreateTickerColumnRows | src/data_preprocess.py:184-191 | With a new column name, each row is spread over its matched tokens, `$` kept, giving max(k, 1) rows for k matches. |

## Left out

- Reddit API access: `praw`, `subreddit.new`, `replace_more` and `comments.list()` are network calls. A subreddit's listing is the function parameter `newest`, and a submission carries `comments.list()`'s flattened sequence.
- CSV reading: `pd.read_csv` is file I/O. A listing is a map from column names to string columns. NaN cells and pandas type inference are not modelled.
- Timestamp formatting: `utc_to_datetime_str` depends on the host's time zone. The formatter is a function parameter in both files.
- Unicode character classes: `\w` and `\s` are approximated by their ASCII members.
- Set iteration order: `list(set(...))` and `set.intersection` are listed in first-occurrence order. `ReadTickerFile` and `TickersInText` state only membership and the absence of duplicates. The results that spread rows over tickers describe the row sequence exactly, but only up to that chosen order of each record's ticker copies: `RedditData.CreateData`, `RedditData.ExtractTickerRows`, `RedditData.SpreadTickers` and `DataPreprocess.CreateTickerColumnRows`.
- pandas detail: `drop_duplicates` is exact row equality, keeping the first occurrence. Dtype coercion and hashing are not modelled.
- pandas detail: `append` puts the other frame's new columns after the old ones in their own order, which may differ from pandas' order. Every later step selects columns by name, so only which columns are present matters.
- RedditData.SaveSubmission / RedditData.SaveSubreddit: the `col_names` parameter is fixed to the eleven wide names, the only header their caller passes (`self.initial_col_names`). With a header of another length, `pd.Series(info_list, index=col_names)` would raise; that error path is not modelled.
- Duplicated column labels: the model reads the first column with a name, where pandas `df[name]` returns every column of that label. The pipeline's own tables have no repeated label by the time a column is read by name.
- Frames.Select: a missing column is a `KeyError` naming the first absent asked name. pandas' `KeyError` lists every missing label. The same holds for `RedditData.TransformEmpty` and `RedditData.CreateData`, which name only `comment_author`.
- `$` stripping: `str.replace("$", "", regex=True)` removes every `$`. That depends on the pandas 1.x rule that a one-character pattern is literal. Under a regex reading it would remove nothing.
- In-place mutation and aliasing: column writes and relabelling return a new frame, so four writes into the caller's frame are not visible. They are `remove_unwanted_char` writing `body` (src/reddit_data.py:250), `extract_ticker` writing `ticker` before the explode (src/reddit_data.py:265), `create_ticker_column` writing its new column (src/data_preprocess.py:190), and `combine_submission_comment` relabelling its caller's frames. The write at src/reddit_data.py:271 lands on the exploded copy, not the caller's frame. No result of the core depends on these side effects, because `create_data` (src/reddit_data.py:90-93) reassigns `data` after each call.
- `find_all_ticker` at src/data_preprocess.py:173-178 refers to an undefined global, so it cannot run. It is left out; the nested helper in `create_ticker_column` is modelled instead.
- `create_reddit_df` and `create_clean_df` only build empty tables. They are the constants `REDDIT_COLUMNS` and `CLEAN_COLUMNS` with `Frames.Empty`.
- `src/model/model.py`, `src/model/vader.py`, `src/ui/app.py` and `src/main.py` are not part of this model. They are neural and lexicon sentiment scoring in floating point, a dashboard, and orchestration.
- The module-level `praw.Reddit('DEFAULT')` connection in `data_preprocess.py` is not part of this model.
