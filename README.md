# Fraud-detection reporting utilities: metrics table and figure names

This project models the two pieces of decision logic in the fraud-detection
repository's reporting helpers (`src/visualization_utils.py`):

- **The model-metrics table** (`save_model_metrics_csv`). The metrics file is a
  table of rows keyed by the "Model" column. Each row holds the model name and
  five scores: accuracy, precision, recall, F1 and ROC AUC (datatype
  `MetricsTable.Row`, the record built at src/visualization_utils.py:120-127;
  its equality compares all six fields, as the duplicate check at line 140
  does). One save works as follows. If no file exists, the table becomes exactly the new row. Otherwise
  the table is read. If `overwrite` is set, every row for that model name is
  removed. If a row equal to the new row is still present, the call returns
  early and writes nothing. Otherwise the row is appended and the table is
  written back.
  - `MetricsTable.Save` is the specification of one save. It maps the stored
    file (`Option<seq<Row>>`, where `None` means there is no file) to an
    `Outcome`: `Skipped` or `Written(rows)`.
  - `MetricsTable.MetricsFile` is a class that holds the file.
    `SaveModelMetrics` updates it step by step, as the source does, and is
    proved against `Save`.
  - The lemmas pin down what a save keeps, removes and appends. One of them
    shows that with `overwrite` on, the "already exists" branch can never fire.
- **Figure file names** (`conf_matrix_<slug>.png` and `roc_curve_<slug>.png`).
  The slug is the model name lower-cased, with every space replaced by `_`.
  Module `FigureNames` defines these names as functions. Their contracts state
  the names' shape and that the slug maps the name one character for one.
  Lemmas show that the slug is idempotent and exactly when two model names
  share a figure file.

With `overwrite=False`, a second row with the same model name and different
scores is appended beside the first (src/visualization_utils.py:136-145). Only
`overwrite=True` leaves a single row for the saved name.

## Model

| member | source | states |
|---|---|---|
| `MetricsTable.WithoutModel` | src/visualization_utils.py:137 | the filter keeps a row exactly when it was in the table and its model name differs; the result is a subsequence of the table (order kept) whose length is the old length minus the number of rows carrying the name |
| `MetricsTable.Save` | src/visualization_utils.py:129-147 | a save is skipped exactly when a file exists, overwrite is off and the new row is already in it; every written table ends with the new row |
| `MetricsTable.MetricsFile.SaveModelMetrics` | src/visualization_utils.py:105-148 | builds the row from the model name and its five scores (lines 120-127) and updates the file step by step (with the source's `model_name in df["Model"]` guard before filtering); it writes exactly when `Save` writes for that row, leaves the file unchanged when it skips, and otherwise stores `Save`'s rows |
| `MetricsTable.WithoutAbsentModel` | src/visualization_utils.py:136-137 | filtering a table with no row for the name leaves it unchanged, so the source's guard before the filter changes nothing |
| `MetricsTable.SaveCreatesTable` | src/visualization_utils.py:130-131 | when no file exists, the written table is exactly the new row, whatever the overwrite flag |
| `MetricsTable.OverwriteLeavesOneRow` | src/visualization_utils.py:136-145 | with overwrite on, the save always writes (the skip branch is unreachable); afterwards exactly one row carries the name, it is the new row, and it is the last row |
| `MetricsTable.OtherModelsUntouched` | src/visualization_utils.py:136-145 | after a write, the rows of every other model are the same rows in the same relative order as before; the only row not from the old table is the new one |
| `MetricsTable.OnlyNamedRowsRemoved` | src/visualization_utils.py:137 | every old row missing from the written table carries the new row's model name |
| `MetricsTable.NoOverwriteAppends` | src/visualization_utils.py:139-145 | with overwrite off, an existing table is kept as it is when the row is already present, and otherwise the row is appended at the end |
| `MetricsTable.WrittenLength` | src/visualization_utils.py:144-147 | a written table is the (filtered, when overwriting) old table followed by the new row, so its length is the filtered length plus one |
| `MetricsTable.SaveTwice` | src/visualization_utils.py:135-145 | saving the same row a second time rewrites the same table with overwrite on, and is skipped with overwrite off |
| `MetricsTable.WithoutModelAppend` | src/visualization_utils.py:145 | the name filter and the name count distribute over appending rows |
| `MetricsTable.WithoutModelIdempotent` | src/visualization_utils.py:137 | filtering by the same name twice is filtering once |
| `FigureNames.LowerChar` | src/visualization_utils.py:54 | ASCII lower-casing of one character: the result is never an upper-case letter, and only upper-case letters change, each by the fixed offset to its lower-case letter |
| `FigureNames.Lower` | src/visualization_utils.py:54 | lower-casing a string keeps its length and lower-cases each character in place |
| `FigureNames.ReplaceChar` | src/visualization_utils.py:54 | replacing one character by another keeps the length and changes exactly the occurrences of the old character |
| `FigureNames.Slug` | src/visualization_utils.py:54 | `model_name.lower().replace(' ', '_')`: the slug is as long as the model name, and each character is the name's character lower-cased, or `_` where the name has a space |
| `FigureNames.SlugClean` | src/visualization_utils.py:54 | a slug contains no space and no ASCII upper-case letter |
| `FigureNames.SlugIdempotent` | src/visualization_utils.py:54 | making a slug of a slug returns it unchanged |
| `FigureNames.FilenameShape` | src/visualization_utils.py:54-77 | for either prefix (`conf_matrix_` at line 54, `roc_curve_` at line 77), a figure name starts with its prefix and ends with `.png`; the slug lies between them and is as long as the model name; the name contains no space |
| `FigureNames.ConfusionMatrixFilename` | src/visualization_utils.py:54 | the confusion-matrix figure name starts with `conf_matrix_`, ends with `.png`, holds the slug in between, has no space, and its length is the prefix, the model name and the extension together |
| `FigureNames.RocCurveFilename` | src/visualization_utils.py:77 | the ROC figure name starts with `roc_curve_`, ends with `.png`, holds the slug in between, has no space, and its length is the prefix, the model name and the extension together |
| `FigureNames.SameSlugIff` | src/visualization_utils.py:54 | two model names have the same slug exactly when they have the same length and agree character by character up to ASCII case and space versus `_` |
| `FigureNames.SameConfusionMatrixFigureIff` | src/visualization_utils.py:54 | two model names get the same confusion-matrix figure file exactly when they agree character by character up to ASCII case and space versus `_` |
| `FigureNames.SameRocCurveFigureIff` | src/visualization_utils.py:77 | two model names get the same ROC-curve figure file exactly when they agree character by character up to ASCII case and space versus `_` |

## Left out

- Metric computation (`accuracy_score`, `precision_score`, `recall_score`, `f1_score`, `roc_auc_score`) and `round(…, 4)`: these are floating-point library calls. A score is an opaque value (`Score`) that is only compared for equality. `SaveModelMetrics` takes the five rounded scores as parameters in place of `y_true`, `y_pred` and `y_proba`.
- CSV reading and writing and `os.path.exists`. The file is abstracted as `Option<seq<Row>>`. Pandas type inference when the file is read back is not modelled. Pandas infers each column's type from the whole column. A numeric-looking name such as `2024` is read back as a number only when every name in the "Model" column looks numeric, for example when it is the only row. Then it no longer matches the name string at src/visualization_utils.py:136-140. In a column that also holds `Random Forest`, `2024` stays a string and matches. Missing-value markers are read per value, whatever the rest of the column holds: a model named `NA`, `None`, `null` or the empty string reads back as NaN. Such a row never matches, so with `overwrite=True` its rows pile up. Floats may also not read back as the same value. The model treats the stored rows as exactly the rows that were written. It also assumes that `read_csv` and `to_csv` succeed. Nothing creates the file's parent directory, so if it is missing the first save raises at src/visualization_utils.py:147, where the model writes `[row]`.
- `MetricsFile.SaveModelMetrics`: the source returns nothing. The model's `written` result records which branch ran. The source prints a different console message on each branch, and only the writing branch calls `to_csv`.
- `FigureNames.LowerChar`: models `str.lower()` for ASCII only. Other characters are kept unchanged. Python's Unicode lower-casing can change characters outside ASCII, and sometimes the string length too.
- Plotting and reporting: `plot_confusion_matrix_with_metrics`, `plot_roc_with_auc`, `print_classification_report`, `save_plot` and `src/visual_config.py`. Apart from the file names above, these are presentation calls, console output and directory creation.
- `src/data_preprocessing.py`, `src/predictor.py`, `src/model_training.py`, `src/main.py` and `dags/pipeline_dag.py` are not part of this model. They are thin calls into scikit-learn, joblib, FastAPI and Airflow, whose behaviour is not visible here.
