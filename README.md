# ROS data logger: ingest and outlier filter

This project models the core of `ROSDataLogger`, a ROS node that subscribes to one topic and handles each message in four steps:

1. It resolves each configured dotted field path (`"pose.position.x"`) against the message.
2. It refuses rows that hold `None`, NaN or ±inf. Once a row has been accepted, it also refuses rows where some field moved by strictly more than `outlier_threshold`.
3. It appends each accepted row to the CSV log, the timestamp history and the row history, and keeps it as the reference for the next jump test.
4. From a separate plotting thread, it reads the last 100 points of the history.

The model has five modules:

- `Values`: the field value type. `Absent` is Python's `None`. `NaN` and `Inf` are the special floats. `Num(real)` is a finite number. `NonNumeric` is a string or a sub-message. A `Row` is one value per field.
- `FieldExtractor`: messages as trees of named attributes. `SplitPath` is `str.split('.')`. `Follow` is the full attribute walk. `ExtractField` is the loop with its early return.
- `OutlierFilter`: `is_outlier`. `abs(a - b)` is modelled with IEEE outcomes: NaN, +inf, and a `TypeError` on non-numeric operands. The result is `Returns(bool)` or `RaisesTypeError`.
- `Snapshot`: the plot's read window. It takes `timestamps[-100:]`, transposes the rows as `zip(*buffer)` does, and takes the last 100 entries of each column.
- `DataLogger`: the class `Logger`. Its fields are the configured field paths, the threshold, the CSV header, the CSV data rows, `timestamps`, `buffer` and `lastRow`. `Valid()` is the history invariant:
  - the CSV rows, `timestamps` and `buffer` have equal length;
  - CSV row i is `[timestamps[i]] + buffer[i]`;
  - every row is as wide as the field list and holds no `None`, NaN or ±inf;
  - `lastRow` is the last row of `buffer`.

  `Callback` is the message handler. The timestamp `rospy.Time.now()` is passed in as a parameter. The body of `with self.lock` is one atomic step.

Two behaviours of the code the model keeps:

- The history is unbounded. There is no ring buffer; only the plot window is capped at 100.
- A row whose extracted value is a non-numeric object is not refused by the invalid-value test. Once a previous row exists, the difference raises `TypeError`, and the handler ends without changing any state.

## Model

| member | source | states |
|---|---|---|
| `FieldExtractor.SplitPath` | scripts/data_logger.py:16 | splitting a path at '.' gives at least one piece, and no piece contains '.' |
| `FieldExtractor.JoinSplit` | scripts/data_logger.py:16 | joining the pieces with '.' gives back the original path (nothing is lost by splitting) |
| `FieldExtractor.SplitJoin` | scripts/data_logger.py:16 | splitting the join of dot-free pieces gives back exactly those pieces |
| `FieldExtractor.Step` | scripts/data_logger.py:17 | `getattr(val, attr, None)`: the named attribute when the value is a message that has it, otherwise `None` |
| `FieldExtractor.Follow` | scripts/data_logger.py:16-17 | the attribute walk over the whole path: the empty path gives the message itself, and any step below a leaf value gives `None` |
| `FieldExtractor.NonePropagates` | scripts/data_logger.py:16-19 | if any prefix of the path resolves to `None`, the whole path does, since `None` has no attributes; so returning at the first `None` agrees with walking the whole path |
| `FieldExtractor.ExtractField` | scripts/data_logger.py:14-20 | the loop with early return gives the result of the full walk; when it returns something other than `None`, every step of the path resolved to a non-`None` attribute |
| `FieldExtractor.FieldValue` | scripts/data_logger.py:17-20 | a resolved attribute counts as absent exactly when it is `None` (missing or set to `None`); any other leaf value, falsy ones such as 0 included, is kept as it is, and a sub-message is non-numeric |
| `OutlierFilter.AbsDiff` | scripts/data_logger.py:62 | `abs(a - b)` raises `TypeError` exactly when an operand (after the `None`-as-0 substitution, when enabled) is `None` or non-numeric; for two finite numbers it is their absolute difference |
| `OutlierFilter.AnyInvalid` | scripts/data_logger.py:58 | the `any(...)` scan is true exactly when some value of the row is `None`, NaN or ±inf |
| `OutlierFilter.Diffs` | scripts/data_logger.py:62 | `diffs` has one entry per position of `zip(row, last_row)` (the shorter length), each the absolute difference at that position |
| `OutlierFilter.AnyTypeError` | scripts/data_logger.py:62 | building `diffs` raises exactly when some entry raises |
| `OutlierFilter.AnyExceeds` | scripts/data_logger.py:63 | `any(d > threshold)` is true exactly when some difference exceeds the threshold (NaN never does, +inf always does) |
| `OutlierFilter.Classify` | scripts/data_logger.py:56-65 | the test with or without the `None`-as-0 substitution: a row holding `None`, NaN or ±inf is an outlier; otherwise with no previous row it is kept; otherwise it raises exactly when some position's difference raises, and else it is an outlier exactly when some position's difference exceeds the threshold |
| `OutlierFilter.IsOutlier` | scripts/data_logger.py:56-65 | `is_outlier`: a row holding `None`, NaN or ±inf is an outlier whatever the previous row is; with no previous row any other row is kept; it raises `TypeError` exactly when the row is otherwise valid, a previous row exists, and a non-numeric value sits at some compared position of either row |
| `OutlierFilter.InvalidRowIsOutlier` | scripts/data_logger.py:57-59 | a row holding `None`, NaN or ±inf is an outlier whatever the previous row is |
| `OutlierFilter.FirstRowKeptIffValid` | scripts/data_logger.py:57-65 | with no previous row, a row is an outlier exactly when it holds `None`, NaN or ±inf |
| `OutlierFilter.JumpRule` | scripts/data_logger.py:61-65 | with a previous row of the same width, a row of finite numbers is an outlier exactly when some field differs from it by strictly more than the threshold |
| `OutlierFilter.MoveWithinThresholdKept` | scripts/data_logger.py:61-65 | a move equal to the threshold (or smaller) in every field is accepted |
| `OutlierFilter.ZeroThresholdRejectsAnyChange` | scripts/data_logger.py:61-64 | with threshold 0, a finite row is an outlier exactly when it differs from the previous row |
| `OutlierFilter.ImputationUnused` | scripts/data_logger.py:58-62 | when the previous row holds no `None`, NaN or ±inf (as every accepted row does), dropping the `None`-as-0 substitution does not change the outcome |
| `Snapshot.LastN` | scripts/data_logger.py:99 | for n ≥ 1, `s[-n:]` has `min(n, len(s))` entries: the last ones of `s`, in order |
| `Snapshot.MinWidth` | scripts/data_logger.py:100 | `zip(*rows)` yields as many columns as the shortest row is wide, and none for no rows |
| `Snapshot.Transpose` | scripts/data_logger.py:100 | the transposition has one column per position of the shortest row, each as long as the number of rows, and entry i of column j is value j of row i |
| `Snapshot.Window` | scripts/data_logger.py:97-98 | the plot's read gives nothing exactly when fewer than 2 timestamps have been logged |
| `Snapshot.WindowAligned` | scripts/data_logger.py:96-103 | for a history whose timestamps and rows line up, the window holds the last `min(100, n)` timestamps in their original order and one series per field, each series as long as the timestamps, with point k of each series taken from the same sample as timestamp k |
| `DataLogger.RowOf` | scripts/data_logger.py:68-71 | the row has one value per configured field, in field order; a value is absent exactly when its path resolves to `None`, it is the leaf value found at the end of its path otherwise, and a path ending at a sub-message gives a non-numeric value |
| `DataLogger.BuildRow` | scripts/data_logger.py:68-71 | the extraction loop builds exactly the row `RowOf` describes |
| `DataLogger.HeaderOf` | scripts/data_logger.py:52 | the CSV header is the column `time` followed by the field paths, in order |
| `DataLogger.CsvRow` | scripts/data_logger.py:77 | a CSV data row is the timestamp followed by the row's values |
| `DataLogger.Logger.constructor` | scripts/data_logger.py:29-38 | the new logger has empty histories, no previous row, a CSV log holding only the header, and the configured threshold, or 100 when none is set |
| `DataLogger.Logger.Callback` | scripts/data_logger.py:67-80 | keeps `Valid()`. The outcome is Logged, Dropped or Raised exactly as `is_outlier` returns false, returns true or raises. When Logged, exactly one entry `now`, `row` and `[now] + row` is appended to the timestamps, the buffer and the CSV rows, and `lastRow` becomes `row`. Otherwise the timestamps, buffer, CSV rows and `lastRow` are all unchanged. On every reachable state, the `None`-as-0 substitution does not change the verdict |
| `DataLogger.Logger.PlotWindow` | scripts/data_logger.py:95-103 | on a valid logger, the read gives nothing exactly when fewer than 2 points exist; otherwise it gives the last `min(100, n)` timestamps and one series per field, aligned with them |

## Left out

- Transport and logging: `rospy` node setup, the subscriber, `spin` and `is_shutdown` are not modelled. The `logwarn` on a dropped row is represented only by the `Dropped` outcome. The clock is the `now` parameter of `Callback`.
- Configuration: `load_config` (YAML), the `importlib` lookup of the message class, and the unused `rate` setting are not modelled. The field list and the optional threshold are constructor parameters.
- Files: `os.makedirs`, the time-stamped file name, opening the CSV file and `close` are not modelled. The CSV log is kept as a header plus a sequence of rows. Serialization is not modelled (`None` written as an empty cell, float formatting), so the file round trip is not stated.
- Plotting: matplotlib rendering and the unused `outlier_points`/`outlier_times` are not modelled. `PlotWindow` models one read of the plotting loop; the loop itself and its busy `continue` while fewer than 2 points exist are not modelled.
- Concurrency: the lock and the plotting thread are not modelled. Each `with self.lock` block is one atomic step.
- `DataLogger.Logger.PlotWindow`: gives one series per column of `zip(*buffer)`. The `IndexError` the source would raise when there are fewer columns than fields is not modelled; it cannot occur on a valid logger, where every row has one value per field.
- Floats: values are exact reals, with NaN and ±inf as tags. Rounding is not modelled. The threshold is a finite real; a NaN or infinite threshold is not modelled.
- DataLogger.Logger.constructor: the threshold is the configured real, or 100 when the key is missing. A key present with the value `null` makes `config.get` return `None`; every comparison `d > None` then raises for each row judged against a previous one. That configuration is not modelled.
- `FieldExtractor.Step`: leaf values (numbers, strings) have no attributes in the model. Python attributes of built-in values, such as `float.real`, are not modelled.
- Exceptions: the only one modelled is the `TypeError` of `abs(a - b)` on non-numeric operands.
