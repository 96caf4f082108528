# Football match outcome predictor: feature pipeline and training preparation

This project models the logic of a small Premier League outcome predictor. It has two parts.

- The web page (`app.py`) loads a classifier, two team-name label encoders and a match history
  table. For a submitted pair of teams it:
  - averages each team's last eight matches in its role (home or away) over sixteen statistics;
  - blends the two vectors;
  - prepends the two encoded team names;
  - asks the classifier for a class, and shows the class as a home win, a draw or an away win.

  Any failure becomes an error message on the page. The page also lists every known team once,
  sorted.
- The trainer (`model/train_model.py`, `clean_and_prepare`) builds what the classifier learns from. It:
  - keeps nineteen columns;
  - drops incomplete rows;
  - codes the full-time result H/D/A as 0/1/2;
  - label-encodes the home and the away team columns with two independent encoders;
  - splits the features X from the target y.

Everything is modelled as pure functions over a `Frame`, which has named columns and rows of
cells. A cell is missing (NaN), an integer statistic, or text. Python exceptions become a
`Result` whose `Failure` names what went wrong:
- a missing column;
- a team cell that is not text;
- an unseen team name;
- a mean over no rows;
- text where a number was expected;
- a row of the wrong width;
- a class outside 0, 1, 2.

Means are exact `real` quotients of integer sums. The classifier is an uninterpreted function
stored in the `Bundle` next to the two encoders.

Modules:
- `Results`: the result and failure types.
- `Frames`: frames, the column lookup, boolean filtering and `tail`.
- `Names`: Python's string order and `sorted(set(...))`.
- `Encoding`: `LabelEncoder`.
- `Inference`: the page.
- `Training`: `clean_and_prepare`.
- `Agreement`: the facts that tie the page to the trainer. The feature row has exactly the
  columns of X, in the same order. The result codes are read back as the outcome they stand
  for. The bundle's encoders give a training row's team names the codes that X holds for that row.

## Model

| member | source | states |
|---|---|---|
| Frames.FilterHits | app.py:23-25 | Boolean indexing keeps exactly the rows satisfying the condition, in table order, at increasing positions, and at most as many rows as the table has |
| Frames.FilterSound | app.py:23-25 | Every kept row satisfies the condition and comes from the table |
| Frames.Filter | app.py:23-25 | Boolean indexing; its contract is in FilterHits and FilterSound |
| Frames.Tail | app.py:23-25 | `tail(n)` has min(len, n) rows, the last ones of its input, in order |
| Frames.TailOfFilter | app.py:23-25 | The last n rows kept by a filter are the rows at the last n kept positions, in order |
| Frames.ColumnMembers | app.py:30 | A cell occurs in a column exactly when some row holds it under that column |
| Names.SortedDistinct | app.py:30 | `sorted(set(names))` is strictly increasing in Python's string order (`Names.Below`, code point by code point, a proper prefix first) and holds exactly the given names |
| Names.SortedUnique | app.py:30 | Two strictly sorted name lists with the same members are equal, so the sorted distinct list depends only on which names occur |
| Names.SortedDistinctCount | model/train_model.py:30-33 | The sorted distinct list is as long as the set of names |
| Names.Insert | app.py:30 | Inserting a name into a strictly sorted list keeps it strictly sorted and adds exactly that name |
| Encoding.Fit | model/train_model.py:30-33 | A fitted encoder's classes are strictly sorted, are exactly the fitted names, and number the distinct names |
| Encoding.Transform | app.py:37-38 | `transform` succeeds exactly for a known class, returns its position in the classes, and otherwise fails with an unseen-label error for that name |
| Encoding.FitTransform | model/train_model.py:32-33 | `fit_transform`; its contract is in FitTransformCodes |
| Encoding.FitTransformCodes | model/train_model.py:32-33 | `fit_transform` codes lie below the number of distinct names and decode to their names; equal names get equal codes and distinct names distinct codes; a later `transform` of a fitted name gives the same code |
| Encoding.TransformInverts | app.py:37-38 | On sorted classes, transforming the class at position `code` gives back `code` |
| Encoding.TransformFitted | app.py:37-38 | A fitted encoder accepts exactly the names it was fitted on |
| Encoding.IndependentEncoders | model/train_model.py:30-33 | Encoders fitted on different columns are independent: the same name gets code 1 from one and code 0 from the other |
| Inference.Window | app.py:21-25 | Every row of the window is a history row with the team in the requested role |
| Inference.HitsAreRoleRows | app.py:22-25 | The kept positions increase and are exactly those of the rows with the team in the role |
| Inference.WindowIsLastMatches | app.py:19-25 | The window is exactly the last min(8, k) of the k rows with the team in the role, in table order |
| Inference.ColumnSum | app.py:26 | Summing a column with missing cells as 0 succeeds exactly when no window cell of it is text; otherwise it fails with a non-numeric error naming the column |
| Inference.ColumnMean | app.py:26 | The mean exists exactly for a non-empty window with no text cell; an empty window fails with no-data, text with non-numeric |
| Inference.SumBounds | app.py:26 | With every value between lo and hi, the column sum lies between lo·n and hi·n |
| Inference.MeanBounds | app.py:26 | A mean lies between the least and the greatest value averaged, missing counting as 0 |
| Inference.AveragesOver | app.py:26 | One value per statistic in order, each the column's average (0 for an absent column); on failure, the error of the first statistic that fails |
| Inference.RecentAverages | app.py:21-26 | `get_recent_averages`; its contract is in RecentAveragesSpec and NoHistoryFails |
| Inference.RecentAveragesSpec | app.py:15-26 | `get_recent_averages` gives sixteen values exactly when every present statistic can be averaged; value i is the sum of statistic i over the window divided by the window size, or 0 when the history lacks it |
| Inference.NoHistoryFails | app.py:26 | A team with no match in the role gets a no-data error, not a zero vector, once the history has any statistic; only a history with none of them yields sixteen zeros |
| Inference.Blend | app.py:41 | The home and away averages blended entry by entry; its contract is in BlendBetween, BlendSymmetric and AssembledBlend |
| Inference.BlendSymmetric | app.py:41 | Blending is symmetric in home and away |
| Inference.BlendBetween | app.py:41 | The blend of equal-length vectors has their length, each entry lies between the two it averages, and blending a vector with itself returns it |
| Inference.Assemble | app.py:42-43 | The row is built exactly when the blend has sixteen entries; it has the columns HomeTeam, AwayTeam and the statistics, and its values are the two codes followed by the blend; otherwise the construction fails with the value count |
| Inference.AssembledBlend | app.py:41-43 | An assembled row carries the two codes first and, at position 2+i, statistic i and the mean of the two teams' value i |
| Inference.ResultMap | app.py:45-46 | Classes 0, 1, 2 read as home win, draw and away win; any other class is an unknown-label error |
| Inference.Features | app.py:37-43 | The feature row; its contract is in FeaturesSpec and FeaturesNeverMisshapen |
| Inference.FeaturesSpec | app.py:37-43 | A built feature row has the training column order; its first two values are the home and away codes; value 2+i is the average of both teams' value for statistic i |
| Inference.FeaturesNeverMisshapen | app.py:37-43 | The feature row fails only through an unseen name or averaging, never because of its width |
| Inference.IdenticalTeamsBlank | app.py:31-35 | Identical teams leave the prediction blank, whatever the model, encoders and history |
| Inference.Predict | app.py:35-48 | The prediction for a submitted pair; its contract is in PredictSpec, IdenticalTeamsBlank and EmptyWindowIsError |
| Inference.PredictSpec | app.py:35-48 | An outcome is shown exactly for different teams with a built row and a class in 0..2, read through the result map. Otherwise, for different teams, the error of the first failing step is shown: home name, away name, home averages, away averages, class |
| Inference.EmptyWindowIsError | app.py:39-48 | Known, different teams where the home team has no home match, or the home averages exist and the away team has no away match, show the no-data error rather than a prediction from zeros, provided the history has one of the statistics |
| Inference.Teams | app.py:30 | The team list is strictly sorted, so it has no repeats, and holds exactly the names in either team column |
| Inference.Index | app.py:30-48 | The drop-down list is strictly sorted and holds each name of either team column once; a GET or a submission of one team twice shows no prediction; a submission of two different teams shows the prediction for them |
| Training.KeepColumnsLayout | model/train_model.py:18-22 | The nineteen kept names have the two team columns first and the result last, each found at that position |
| Training.Project | model/train_model.py:23 | Projection succeeds exactly when every name exists. It then keeps those columns in the given order, with every cell taken from the named column. Otherwise it fails listing the absent names in order |
| Training.DropNa | model/train_model.py:23 | `dropna` keeps the columns, and every remaining row is a complete input row |
| Training.CompleteRows | model/train_model.py:23 | The rows left by `dropna` are input rows with a value in every kept column |
| Training.ProjectedRows | model/train_model.py:23 | The complete rows are the input rows, in order, at exactly the positions where none of the projected cells is missing, with each cell from its named column; there are at most as many as input rows |
| Training.OutcomeCode | model/train_model.py:26-27 | H, D, A map to 0, 1, 2, each the only letter with that code; every other cell becomes missing |
| Training.MapResults | model/train_model.py:27 | Only the result column changes, and each of its cells is replaced by its code |
| Training.SetColumn | model/train_model.py:32-33 | Assigning a column replaces that column's cells and leaves every other cell alone |
| Training.EncodeTeams | model/train_model.py:30-33 | Encoding succeeds exactly on a column of names. Its classes are the column's distinct names, sorted, and each cell gets a code below their number that decodes to its own name. Anything else fails naming the column |
| Training.EncodeColumn | model/train_model.py:32-33 | Encoding a frame column succeeds exactly when all its cells hold names, otherwise fails naming the column; the frame keeps its columns and row count |
| Training.EncodedCells | model/train_model.py:32-33 | After encoding, every cell of the column decodes to the name it replaced, and every other cell is unchanged |
| Training.EncodeColumnClasses | model/train_model.py:32-33 | The encoder's classes are sorted and are exactly the names occurring in the column |
| Training.DropColumn | model/train_model.py:35 | Dropping a column removes exactly it and shifts the later cells left |
| Training.CodedCarried | model/train_model.py:26-27 | Coding the result changes only the result column of the complete rows |
| Training.HomeEncodedCarried | model/train_model.py:32 | Encoding the home column replaces each home name by its code and keeps all other cells |
| Training.AwayEncodedCarried | model/train_model.py:33 | Encoding the away column replaces each away name by its code, independently of the home codes, and keeps all other cells |
| Training.SplitCarried | model/train_model.py:35-36 | X is the frame without the result column (eighteen columns), and y is the coded result, row by row |
| Training.Prepare | model/train_model.py:23-37 | `clean_and_prepare` after the projection; its contract is in PrepareOk, PrepareErrors, PrepareRows and PrepareEncoders |
| Training.PrepareErrors | model/train_model.py:30-33 | After the projection, preparation fails only on a team column that does not hold names only; a failure on the away column means the home column holds names only, as the home column is encoded first |
| Training.PrepareOk | model/train_model.py:23-33 | Preparation succeeds exactly when every complete row names both teams with text |
| Training.PrepareRows | model/train_model.py:23-37 | X has the first eighteen kept columns and, for each complete row in order, the two team codes and the sixteen statistics; y holds its coded result |
| Training.PrepareEncoders | model/train_model.py:30-33 | Each encoder's classes are exactly the sorted names of its own column among the complete rows |
| Training.CleanAndPrepare | model/train_model.py:16-37 | `clean_and_prepare`, defined as `Training.ProjectAndPrepare` (the same steps with the column list as a parameter) on the nineteen kept names; its contract is in CleanAndPrepareOk, CleanAndPrepareErrors and CleanAndPrepareRows |
| Training.ProjectAndPrepareErrors | model/train_model.py:23-33 | For any column list of that layout, the pipeline fails only listing missing names or on a team column; a failure on the away column means every row complete in those columns names its home team with text |
| Training.ProjectThenPrepare | model/train_model.py:23-33 | For any column list of that layout, the pipeline succeeds exactly when every name exists and every row complete in those columns names both teams with text |
| Training.TeamsText | model/train_model.py:23 | The complete rows name both teams with text exactly when every input row complete in the kept columns does |
| Training.CleanAndPrepareErrors | model/train_model.py:16-37 | The trainer fails only listing the missing columns, or on the home or away team column; a failure on the away column means every row complete in the nineteen columns names its home team with text |
| Training.CleanAndPrepareOk | model/train_model.py:16-37 | The trainer succeeds exactly when all nineteen columns exist and every row complete in them names both teams with text |
| Training.CleanAndPrepareRows | model/train_model.py:16-37 | X has the eighteen feature columns. Row by row, for the complete rows in order, X holds the codes of both team names and the statistics, and y the coded result. Each encoder knows exactly its own column's names. X and y have no more rows than the input |
| Agreement.FeatureColumnsAreKept | model/train_model.py:18-22 | The kept columns without the result are exactly the feature columns of the page's row, in order |
| Agreement.ServedColumnsAreTrained | model/train_model.py:35 | Every feature row the page builds has exactly the columns of X, in X's order |
| Agreement.OutcomeCodesAgree | app.py:45-46 | The codes the trainer gives H, D, A are read back as home win, draw, away win, and every code it produces is readable |
| Agreement.ServedCodesAreTrained | app.py:37-38 | With the trained encoders in the bundle, each training row's team names transform to the codes X holds for that row, which also begin any feature row for that pairing |
| Agreement.RowCodesAgree | app.py:37-38 | Row i of X holds the codes that the bundle's encoders give the names of complete row i |

## Left out

- Flask application set-up, routing, form reading, template rendering and server start-up
  (`app.py` lines 1-6, 28-34, 49-54). `Inference.Index` takes the request as a value and returns
  the page contents.
- Loading the model bundle and the history, reading the CSV, and saving the model (`joblib`,
  `pd.read_csv`, `load_data`, `save_model`). These are file I/O. The bundle and the history are
  parameters. The page expects one bundle while the trainer saves three files; that deployment
  mismatch is not behaviour of either function.
- `train_model`: the random forest, `train_test_split` and the metrics. These are foreign library
  code with randomness and printing. The classifier is an uninterpreted function in the `Bundle`.
- Floating-point rounding. Means are exact rationals over integer statistics, and statistics
  are integers.
- The emoji outcome strings. They are the `Outcome` values `HomeWin`, `Draw` and `AwayWin`.
- Inference.Predict: the text of an error message is not modelled. `Failed(e)` stands for the
  page's `"Error: {e}"`, and `e` says which step failed.
- Inference.Teams: requires both team columns to exist and to hold text in every row. In the
  source, `sorted` on a missing name raises outside the `try`, so the request crashes instead of
  showing a page; a crash is not modelled.
- Training.EncodeTeams: a team column with any non-text cell is refused as a whole. scikit-learn
  would encode a column that is entirely numeric; team columns hold names.
- Inference.NoHistoryFails: a team with no match in its role gets no zero vector; `mean` raises
  on the empty window and the page shows the error.
- Training.OutcomeCode: a result letter other than H, D or A maps to a missing target value, as
  `map` does. The model keeps that value in y and does not model what the classifier would do
  with it.
