# Backend security, metrics and health core, in Dafny

This project models the three backend modules that every request of the
trading-system backend passes through, and proves properties of the model.

- **Input validation and rate limiting** (`App/backend/security.py`).
  - `InputValidator` removes control characters, HTML-escapes and trims
    strings, checks e-mail addresses and numeric bounds, and neutralises
    file names.
  - `sanitize_input` applies that sanitising recursively through JSON dicts
    and lists.
  - `require_validation` checks the required fields.
  - `RateLimiter.is_allowed` is a per-address sliding window admitting at
    most 100 requests in 60 seconds. The `rate_limit` decorator ignores its
    arguments and always asks the one global limiter.
- **Metrics store** (`App/backend/metrics.py`).
  - `MetricsCollector` is a dictionary keyed by the metric name plus its
    sorted labels, with counters, gauges and eight-bucket histograms with
    `_sum` and `_count` series.
  - The Prometheus label formatter and its value escaping.
  - The key-suffix rule that groups metrics into counters, gauges and
    histograms for the exporter and the summary.
- **Health monitor** (`App/backend/health.py`).
  - `HealthMonitor` keeps a request tally with a running-mean response time.
  - It classifies health from CPU, memory and disk load and the success
    rate.
  - It keeps the latest 100 reports, summarises the latest 10 and formats
    the uptime.

Modules, one file each:

- `Common`: Option, Result, a real sum and a bounded count.
- `Text`: Python's `isspace` set and `strip`, the ASCII part of `lower`,
  occurrence counts and decimal rendering.
- `InputValidation`, `RateLimiting`, `Labels`, `Metrics` and `Health` model
  the code.

Modelling choices:

- Stateful objects are classes whose fields the methods update:
  - `RateLimiter.requests`;
  - `MetricsCollector.metrics`;
  - `HealthMonitor.metrics` and `HealthMonitor.healthHistory`.
- Ghost fields record what the proofs need to speak about, such as every
  admission time or every response time since the last reset.
- Pure helpers are functions.
- Label dictionaries are sequences of (name, value) pairs with distinct
  names. Python's `sorted(labels.items())` is an insertion sort under
  Python's string ordering.
- Floats are `real`.
- Host readings, the current time and the elapsed uptime are parameters. A
  host reading that raises is `None`.

Behaviours of the code worth noting:

- A success rate of 0.85 on an idle host is *unhealthy*. The rate is below
  0.90, and the second test overrides the first (`Health.ClassifyExamples`).
- An observation of 45 seconds does land in a bucket, the `le="60.0"` one,
  because 45 <= 60 (`Metrics.ObserveBetween`). 75 is the value that misses
  every bucket (`Metrics.ObserveLarge`).
- A labelled key ends in `_` and the value of its last label in key order,
  not in its series suffix. The grouping rule therefore files a labelled
  bucket, `_sum` or `_count` key by that value and by its name: as a
  histogram exactly when `_` followed by the value ends in `_sum`, `_count`
  or `_bucket` (the value is `sum`, `count` or `bucket`, or ends in `_sum`,
  `_count` or `_bucket`), otherwise as a counter or a gauge
  (`Metrics.LabelledKeyFamily`,
  which needs a value of at least six and a name of at least eight
  characters). For example, `latency` with label `route=login` has its
  `_sum` filed as a gauge (`Metrics.LabelledSumIsGauge`). Unlabelled bucket
  keys end in their boundary and are not histograms either
  (`Metrics.BucketKeysNotHistogram`).
- Different name and label pairs can give the same metric key
  (`Labels.KeysCanCollide`), also on one name: `a` with `b=c_d` and `a`
  with `b_c=d` (`Labels.SameNameKeysCollide`).

## Model

| member | source | states |
|---|---|---|
| InputValidation.RemoveControl | App/backend/security.py:35-36 | the result contains none of 0x00-0x08, 0x0B, 0x0C, 0x0E-0x1F, 0x7F; every other character keeps its number of occurrences; a string without them is unchanged |
| InputValidation.RemoveControlConcat | App/backend/security.py:36 | removal distributes over concatenation, so with the one-character cases fixed by `RemoveControl` the kept characters keep their order |
| InputValidation.SanitizeString | App/backend/security.py:27-41 | fails, with the limit as reason, exactly when the raw input is longer than `max_length`; a success has no markup character, every `&` starts an entity, no edge whitespace, and unescapes to the stripped, control-free input |
| InputValidation.EscapingCanExceedLimit | App/backend/security.py:32-39 | the length check is on the raw input: `"<"` with limit 1 succeeds as the 4-character `"&lt;"` |
| InputValidation.HtmlEscape | App/backend/security.py:39 | the escaped text is never shorter than the input |
| InputValidation.EscapePlainText | App/backend/security.py:39 | text without `&`, `<`, `>`, `"` or `'` is left as it is |
| InputValidation.EscapeConcat | App/backend/security.py:39 | HTML escaping distributes over concatenation |
| InputValidation.SafeConcat | App/backend/security.py:39 | two HTML-safe strings concatenate to an HTML-safe string |
| InputValidation.EscapeCharIsSafe | App/backend/security.py:39 | the escape of any non-control character is HTML-safe |
| InputValidation.EscapedIsSafe | App/backend/security.py:36-39 | escaping a control-free string gives no `<`, `>`, `"`, `'` and only entity-starting `&` |
| InputValidation.StripKeepsSafe | App/backend/security.py:39-41 | trimming an HTML-safe string keeps it HTML-safe |
| InputValidation.EscapeSpaces | App/backend/security.py:39-41 | whitespace is left as it is by escaping |
| InputValidation.EscapeEdges | App/backend/security.py:39-41 | the first and last characters of an escaped string come from the escapes of the first and last input characters |
| InputValidation.EscapeNoEdgeSpace | App/backend/security.py:39-41 | escaping a string without edge whitespace gives one without edge whitespace |
| InputValidation.StripCommutesWithEscape | App/backend/security.py:39-41 | trimming and escaping commute |
| InputValidation.EscapeRoundTrip | App/backend/security.py:39 | unescaping the HTML escape of any string gives the string back |
| InputValidation.IndexOf | App/backend/security.py:50 | the first position of a character, or the length when it is absent |
| InputValidation.LastIndexOf | App/backend/security.py:50 | the last position of a character, or -1 when it is absent |
| InputValidation.EmailMatches | App/backend/security.py:50-52 | the executable matcher accepts exactly the strings of the form `[A-Za-z0-9._%+-]+@[A-Za-z0-9.-]+\.[A-Za-z]{2,}` |
| InputValidation.ValidateEmail | App/backend/security.py:44-55 | empty input fails as required; otherwise it succeeds exactly when the lower-cased, trimmed input matches the pattern, and then returns that text; a mismatch fails as invalid format |
| InputValidation.ValidateNumeric | App/backend/security.py:58-72 | succeeds exactly when each given bound holds, returning the number unchanged; the minimum is checked first and each failure names its bound |
| InputValidation.ReplacePathChars | App/backend/security.py:95 | same length; no `.`, `/` or `\` is left; each of them becomes `_` where it stood and every other character stays where it stood; a name without them is unchanged |
| InputValidation.ReplacePathCharsCounts | App/backend/security.py:95 | each path character adds one `_`; every other character occurs as often as before |
| InputValidation.KeepFilenameChars | App/backend/security.py:98 | keeps only word characters, `-`, `_` and `.`, taken from the input; empty exactly when none occurs; unchanged when all are allowed |
| InputValidation.KeepFilenameCharsCounts | App/backend/security.py:98 | each allowed character occurs as often as in the input, every other one not at all |
| InputValidation.KeepFilenameCharsConcat | App/backend/security.py:98 | the filter distributes over concatenation, so the kept characters keep their order |
| InputValidation.SanitizeFilename | App/backend/security.py:89-103 | empty input fails as required; otherwise it succeeds exactly when some character survives both substitutions; a success is non-empty, no longer than the input and made of word characters and `-` only; each word character other than `_`, and `-`, occurs as often as in the input, and `_` as often as `_`, `.`, `/` and `\` together |
| InputValidation.SanitizeFilenameIdempotent | App/backend/security.py:89-103 | sanitising a sanitised file name gives it back |
| InputValidation.TraversalNeutralised | App/backend/security.py:95-98 | `../../etc/passwd` becomes `______etc_passwd` |
| InputValidation.SanitizeInput | App/backend/security.py:174-183 | fails with the length reason exactly when some nested string is longer than 1000; otherwise strings are sanitised, dict keys and list order are kept and other values are unchanged |
| InputValidation.SanitizeFields | App/backend/security.py:179 | fails exactly when some value does not fit; otherwise same keys in the same order, each value sanitised |
| InputValidation.SanitizeItems | App/backend/security.py:181 | fails exactly when some item does not fit; otherwise same length and order, each item sanitised |
| InputValidation.CheckRequiredFields | App/backend/security.py:139-157 | no required fields (the body is then not read), or a JSON body whose `get_json() or {}` holds them all, lets the route run; a body `get_json()` refuses (not JSON, or malformed) gives an internal error, as does membership that raises; otherwise the first missing field is reported |
| Text.Strip | App/backend/security.py:41 | the result has no whitespace at either end, is a slice of the input, and only whitespace is cut off on either side |
| Text.Lower | App/backend/security.py:48 | same length; no capital letter is left, each becomes its small letter, and every other character stays where it stood |
| Text.Decimal | App/backend/health.py:141-146 | a non-empty string of digits without a leading zero |
| Text.DecimalRoundTrip | App/backend/health.py:141-146 | reading the rendered digits back gives the number |
| Text.DecimalInjective | App/backend/health.py:141-146 | different numbers render differently |
| RateLimiting.Recent | App/backend/security.py:120 | keeps exactly the times after the window start, none added |
| RateLimiting.RecentAppend | App/backend/security.py:120 | the filter distributes over concatenation |
| RateLimiting.RecentTwice | App/backend/security.py:116-120 | filtering by an earlier, then a later window start equals filtering by the later one |
| RateLimiting.RecentKeepsAll | App/backend/security.py:120 | a list already inside the window is kept whole |
| RateLimiting.FullLogWasPurged | App/backend/security.py:120-126 | if a full sorted list drops below the limit, the entry 100 back from the end fell out of the window |
| RateLimiting.AtMostMaxPerWindow | App/backend/security.py:110-130 | admissions spaced as the limiter spaces them number at most 100 in any 60-second window |
| RateLimiting.CheckKeepsTracking | App/backend/security.py:115-130 | one check, at a time no earlier than the last one, keeps the purged list equal to the admissions inside the window |
| RateLimiting.Kept | App/backend/security.py:118-124 | the list after purging is no longer than before and lies inside the window |
| RateLimiting.CheckKeepsConsistent | App/backend/security.py:113-130 | one check keeps the limiter's table consistent with the admission log |
| RateLimiting.RateLimiter.constructor | App/backend/security.py:108-111 | an empty table |
| RateLimiting.RateLimiter.IsAllowed | App/backend/security.py:113-130 | admits exactly when fewer than 100 times remain after purging; stores the purged list, with `now` appended only on admission; no other address changes |
| RateLimiting.RateLimiter.AdmissionsPerWindow | App/backend/security.py:113-130 | with non-decreasing check times, at most 100 admissions of one address fall in any window |
| RateLimiting.RateLimit | App/backend/security.py:159-170 | the route is served exactly when the global limiter admits, whatever limits the decorator declares |
| Labels.StrLessIrreflexive | App/backend/metrics.py:98 | no string sorts before itself |
| Labels.StrLessTransitive | App/backend/metrics.py:98 | the string order is transitive |
| Labels.StrLessTotal | App/backend/metrics.py:98 | any two strings are equal or ordered one way |
| Labels.LabelLeAntisymmetric | App/backend/metrics.py:98 | label pairs ordered both ways are equal |
| Labels.LabelLeTransitive | App/backend/metrics.py:98 | the pair order is transitive |
| Labels.LabelLeTotal | App/backend/metrics.py:98 | any two label pairs are ordered one way or the other |
| Labels.Insert | App/backend/metrics.py:98 | insertion adds exactly the one pair |
| Labels.InsertSorted | App/backend/metrics.py:98 | inserting into a sorted list keeps it sorted |
| Labels.SortLabels | App/backend/metrics.py:98 | the sorted items are a permutation of the items |
| Labels.SortLabelsSorted | App/backend/metrics.py:98 | the sorted items are in order |
| Labels.SortedUnique | App/backend/metrics.py:98 | two sorted permutations of the same items are equal |
| Labels.SortOrderIndependent | App/backend/metrics.py:98 | sorting depends only on the items, not their order |
| Labels.MetricKey | App/backend/metrics.py:92-100 | the key is the name exactly when there are no labels, and always begins with the name |
| Labels.SuffixesLast | App/backend/metrics.py:99-100 | the key's label part ends with `_k_v` of the last sorted label |
| Labels.MetricKeyForm | App/backend/metrics.py:92-100 | the key is the name followed by `_k_v` for every sorted label, so the name alone when there are none |
| Labels.MetricKeyOrderIndependent | App/backend/metrics.py:92-100 | the key depends on the label contents, not their order |
| Labels.KeysCanCollide | App/backend/metrics.py:92-100 | `a` with label `b=c` and `a_b_c` without labels share a key |
| Labels.SameNameKeysCollide | App/backend/metrics.py:92-100 | on the name `a`, label `b=c_d` and label `b_c=d` share a key |
| Labels.SetLabel | App/backend/metrics.py:52-53 | the copy holds `(k, v)` and every other original label, nothing else |
| Labels.SetLabelDistinct | App/backend/metrics.py:52-53 | setting a label keeps names distinct |
| Labels.SetLabelKeysDiffer | App/backend/metrics.py:52-54 | two different `le` values give two different bucket keys |
| Labels.EscapeLabelValueCons | App/backend/metrics.py:169 | a backslash becomes two, a quote becomes `\"`, all else is copied |
| Labels.EscapeLabelValue | App/backend/metrics.py:169 | the escaped value is never shorter than the value |
| Labels.EscapeLabelValueLength | App/backend/metrics.py:169 | the escape is longer by exactly the number of backslashes and quotes |
| Labels.LabelEscapeRoundTrip | App/backend/metrics.py:169 | unescaping an escaped label value gives it back |
| Labels.EscapePlain | App/backend/metrics.py:169 | a value without backslash or quote is unchanged |
| Labels.FormatLabelsOrderIndependent | App/backend/metrics.py:161-172 | the formatted labels depend only on their contents |
| Labels.FormatLabelsExample | App/backend/metrics.py:161-172 | entries come in key order, comma-separated |
| Labels.EscapeExample | App/backend/metrics.py:169 | `a"b` escapes to `a\"b` |
| Labels.FormatLabels | App/backend/metrics.py:161-172 | empty exactly when there are no labels; otherwise it begins with the entry of the first label in key order |
| Metrics.IncrementEffect | App/backend/metrics.py:30-37 | the key exists afterwards with the old value (0 if new) plus the increment, keeps its original labels, never decreases for a non-negative increment; no other key changes |
| Metrics.IncrementsAdd | App/backend/metrics.py:30-37 | two increments equal one by their sum |
| Metrics.IncrementIgnoresLabelOrder | App/backend/metrics.py:30-37 | reordering the labels increments the same entry |
| Metrics.GaugeEffect | App/backend/metrics.py:39-43 | the gauge reads back exactly the value and labels just set; no other key changes |
| Metrics.GaugeLastWriteWins | App/backend/metrics.py:39-43 | of two sets, the last one wins |
| Metrics.Lookup | App/backend/metrics.py:76-80 | present exactly when the key of the name and labels is stored, and then the stored value |
| Metrics.BucketKeysDistinct | App/backend/metrics.py:49-54 | the eight bucket keys of one series differ |
| Metrics.SeriesKeysDistinct | App/backend/metrics.py:54-64 | the `_sum`, `_count` and bucket keys of one series are all different |
| Metrics.BumpEachEffect | App/backend/metrics.py:51-60 | the bucket loop raises each bucket by its own amount and touches no other key |
| Metrics.Hits | App/backend/metrics.py:58 | a bucket is hit exactly when the value is at most its boundary, so the hits never decrease in boundary order |
| Metrics.ObserveEffect | App/backend/metrics.py:45-74 | after an observation all eight buckets exist and each rose by 1 exactly when the value is within its boundary, `_sum` rose by the value and `_count` by 1, and nothing else changed |
| Metrics.ObserveSmall | App/backend/metrics.py:49-60 | 0.05 raises every bucket |
| Metrics.ObserveBetween | App/backend/metrics.py:49-60 | 45 raises only the `le="60.0"` bucket |
| Metrics.ObserveLarge | App/backend/metrics.py:49-72 | 75 raises no bucket but does raise `_count` |
| Metrics.ObservedAllTotals | App/backend/metrics.py:45-74 | over any sequence of observations each bucket counts the values within it, `_count` counts them all and `_sum` totals them |
| Metrics.BucketsCumulative | App/backend/metrics.py:49-72 | from fresh series, bucket counts never decrease in boundary order and never exceed `_count` |
| Metrics.FamilyOf | App/backend/metrics.py:118-124 | histogram exactly when the key ends in `_sum`, `_count` or `_bucket`; otherwise counter exactly when it starts with `counter_`, else gauge |
| Metrics.GroupsCover | App/backend/metrics.py:118-124 | every key is in exactly one of the three groups |
| Metrics.MetricsSummary | App/backend/metrics.py:235-267 | each group holds exactly the metrics of its family under their own values; the groups are disjoint and cover all keys; the total is the number of metrics and the sum of the group sizes |
| Metrics.BucketKeysNotHistogram | App/backend/metrics.py:119-124 | an unlabelled bucket key ends in its boundary, so the rule does not file it as a histogram |
| Metrics.SeriesGrouping | App/backend/metrics.py:119-124 | unlabelled `_sum` and `_count` keys are filed as histograms |
| Metrics.FamilyOfFramed | App/backend/metrics.py:119-124 | a key of at least eight characters of name and seven of tail is grouped by those alone |
| Metrics.LabelledKeyFamily | App/backend/metrics.py:92-124 | a labelled key is a histogram exactly when `_` plus the last sorted label value ends in a series suffix, otherwise a counter exactly when the name starts with `counter_` (value of six or more, name of eight or more characters) |
| Metrics.KeyCharAt | App/backend/metrics.py:92-100 | a key repeats its name character for character |
| Metrics.LabelledSumIsGauge | App/backend/metrics.py:119-124 | example: `latency` with label `route=login` has its `_sum` key filed as a gauge |
| Metrics.MetricsCollector.constructor | App/backend/metrics.py:25-28 | an empty store |
| Metrics.MetricsCollector.IncrementCounter | App/backend/metrics.py:30-37 | the store becomes the incremented store |
| Metrics.MetricsCollector.SetGauge | App/backend/metrics.py:39-43 | the store becomes the store with the gauge set |
| Metrics.MetricsCollector.CountInto | App/backend/metrics.py:55-60 | one bucket is created if missing, then raised by 1 when hit |
| Metrics.MetricsCollector.RecordSeries | App/backend/metrics.py:66-72 | `_sum` and `_count` are created if missing and raised by the value and by 1 |
| Metrics.MetricsCollector.RecordBuckets | App/backend/metrics.py:49-60 | the loop leaves every bucket raised by its hit |
| Metrics.MetricsCollector.RecordHistogram | App/backend/metrics.py:45-74 | the store becomes the observed store described by `ObserveEffect` |
| Metrics.MetricsCollector.GetMetric | App/backend/metrics.py:76-80 | present exactly when the key is stored, and then the stored value |
| Metrics.MetricsCollector.GetAllMetrics | App/backend/metrics.py:82-85 | the whole store at the time of the call |
| Metrics.MetricsCollector.ResetMetrics | App/backend/metrics.py:87-90 | the store is empty |
| Health.Recorded | App/backend/health.py:100-114 | the total rises by 1 and exactly one of the outcome counters rises by 1, so a balanced tally stays balanced |
| Health.MeanStep | App/backend/health.py:110-114 | the incremental update of a mean gives the mean with the new value |
| Health.RunningMean | App/backend/health.py:100-114 | after any sequence of requests from a fresh tally, the counts are exact, the tally balances and the average is the mean of all response times |
| Health.SuccessRate | App/backend/health.py:148-153 | 1.0 with no requests, otherwise the share of successes, which lies in [0, 1] for a balanced tally |
| Health.Classify | App/backend/health.py:64-71 | unhealthy exactly when some load is above 95 or the rate is below 0.90; degraded exactly when not, but some load is above 90 or the rate below 0.95; else healthy |
| Health.ClassifyMonotone | App/backend/health.py:64-71 | more load or a lower rate never gives a better status |
| Health.ClassifyExamples | App/backend/health.py:64-71 | rates 0.85 and 0.5 on an idle host are unhealthy, 0.92 is degraded, a 99% disk is unhealthy |
| Health.UptimeParts | App/backend/health.py:135-139 | hours below 24, minutes and seconds below 60, and the parts add back up to the elapsed seconds |
| Health.UptimePartsUnique | App/backend/health.py:135-139 | any such split is the one computed |
| Health.FormatUptime | App/backend/health.py:132-146 | from a day on, `Dd Hh Mm` with 0 < D, H < 24, M < 60 and D days, H hours and M minutes at most the elapsed time and less than a minute short of it; from an hour, `Hh Mm` with 0 < H < 24 in the same sense; below an hour, `Mm Ss` with M and S below 60 adding up exactly; the text ends in `s` exactly below an hour and contains `d` exactly from a day on |
| Health.UptimeWithDays | App/backend/health.py:141-142 | 90061 seconds read `1d 1h 1m` |
| Health.UptimeWithHours | App/backend/health.py:143-144 | 3661 seconds read `1h 1m` |
| Health.UptimeWithSeconds | App/backend/health.py:145-146 | 59 seconds read `0m 59s` |
| Health.Pushed | App/backend/health.py:155-160 | the new report is last, and a history of at most 100 becomes the latest 100 of it plus the report |
| Health.HistoryKeepsLatest | App/backend/health.py:155-160 | over any number of checks the history is exactly the latest 100 reports in order |
| Health.Statuses | App/backend/health.py:177 | the status of each report, in order |
| Health.CountsAddUp | App/backend/health.py:170-172 | the four per-status counts sum to the number of statuses |
| Health.TallyStep | App/backend/health.py:170-172 | counting one more status keeps the distribution exact |
| Health.TalliesTotal | App/backend/health.py:170-175 | the counts of an exact distribution sum to the number of statuses |
| Health.HealthMonitor.constructor | App/backend/health.py:19-30 | a fresh tally and an empty history |
| Health.HealthMonitor.TallyIsMean | App/backend/health.py:100-153 | the tally balances, counts every recorded request, its average is their mean response time and its success rate lies in [0, 1] |
| Health.HealthMonitor.RecordRequest | App/backend/health.py:100-114 | the tally becomes the recorded tally; the history is unchanged |
| Health.HealthMonitor.GetMetrics | App/backend/health.py:116-119 | a copy of the tally |
| Health.HealthMonitor.ResetMetrics | App/backend/health.py:121-130 | a fresh tally; the history is kept |
| Health.HealthMonitor.StoreHealthHistory | App/backend/health.py:155-160 | the history becomes the pushed history, of at most 100 entries |
| Health.HealthMonitor.GetSystemHealth | App/backend/health.py:32-85 | a reading classifies the host with the current success rate, reports the tally and is stored; a failed reading gives the error report and stores nothing; the tally is unchanged |
| Health.HealthMonitor.GetHealthSummary | App/backend/health.py:162-178 | nothing for an empty history; otherwise the statuses of the latest 10 reports in order, their exact distribution and the number of stored reports |

## Left out

- Host sampling through psutil (`cpu_percent`, `virtual_memory`, `disk_usage`) and `_get_process_info`/`_get_network_info` are foreign calls. The three percentages are a parameter, and a raising reading is `None`.
- The gigabyte figures, environment fields and Python version in a report are not modelled; they are host readings and do not affect the status.
- `get_detailed_health` only combines a health report, the summary and the process and network readings. It is left out with those readings.
- Clocks are parameters: `time.time()` in the limiter and the uptime, `datetime.utcnow()` timestamps on metrics and reports.
- `MetricValue.timestamp` and the report `timestamp` are dropped, as they only record the clock.
- The error text of a failed health check is not modelled; only its `error` status and uptime are.
- The `last_check` entry of the request tally is left out; no code ever sets it.
- Locks (`threading.Lock`) are not modelled; calls are sequential.
- `generate_prometheus_format` beyond its grouping rule needs float-to-text rendering of values and the uptime, which is not modelled. The label formatting it uses is modelled.
- `validate_json` is left out: it is the size check plus the foreign `json.loads` parser.
- `validate_numeric` takes an already-numeric argument, because `float(value)` parsing is left out.
- `\w`, the e-mail pattern's classes and `str.lower` are reduced to ASCII: a non-ASCII letter is neither a word character nor lower-cased. `str.strip` and `str.isspace` use Python's full whitespace set, and `html.escape` needs no reduction.
- Floating point is modelled as exact `real`: rounding and NaN are not modelled. Python's integer `0` start values and integer increments are reals too.
- Dictionary iteration order is not modelled. The metrics summary and the status distribution are maps.
- Labels that `increment_counter` stores are the caller's dictionary object. The aliasing of that object is not modelled; labels are values.
- Metrics.MetricsCollector.GetAllMetrics, Metrics.MetricsCollector.GetMetric: in the source the returned dictionary is a shallow copy (`metrics.py:85`), and the returned value is the stored `MetricValue` object itself (`metrics.py:80`). Later `increment_counter` and `record_histogram` calls change those objects in place (`metrics.py:36, 59, 71-72`), so earlier results show the later counts. `set_gauge` replaces the object instead. The model returns values, a snapshot taken at the time of the call.
- The module-level wrappers are one-line calls into the modelled methods: `metrics.py:178-233`, `reset_all_metrics`, `export_prometheus_metrics` and the `health.py:211-232` functions.
- InputValidation.CheckRequiredFields: which requests Werkzeug treats as JSON (its content-type test) and its JSON parser are not modelled; the body arrives already classified as `Body`.
- Flask glue is not modelled: `security_middleware` headers, `request` access, and `jsonify` responses other than the status they carry.
- The `unknown` default in `_get_health_summary` is not modelled; every stored report has a status.
- Health.HealthMonitor.GetSystemHealth: only a failure of the host reading is modelled as the exception path; no other step of the modelled code can raise.
- Metrics.BucketsCumulative: stated for series whose bucket and `_count` keys start absent. A store whose entries were set by other calls (a gauge under the same key) can break the order.
- InputValidation.SanitizeString, InputValidation.SanitizeFilename, InputValidation.ValidateEmail: their arguments are typed `string`, so the non-string error paths are not modelled, such as `sanitize_string`'s "Input must be a string" (`security.py:29-30`) or a non-string file name reaching `sanitize_filename`.
- Health.HealthMonitor.GetSystemHealth: the elapsed time is a `nat`. A clock stepped back before the start time gives a negative uptime, which `timedelta` renders with days -1 as, for example, `23h 59m` (`health.py:134-146`). That case is not modelled.
