# PicoPrometheus in Dafny

A model of PicoPrometheus, a small C++ library for Arduino/ESP8266 boards. It
keeps metrics in memory and renders them in the Prometheus text-based
exposition format, version 0.0.4. The model covers these parts of the library:

- **Label sets** (`LabelSets.dfy`). A `Labels` value is a map from label name
  to label value. The module also gives:
  - the iteration order of a `std::map<std::string, std::string>`;
  - `Labels::is_subset_of`;
  - the order that label sets have when they are keys of a metric's
    `std::map`.

  `Order.dfy` supplies the general parts: strict total orders,
  `std::lexicographical_compare`, and the ascending enumeration of a finite
  set of keys.
- **Doubles** (`Doubles.dfy`). A C++ `double` is a real number, NaN, `+inf` or
  `-inf`. Only the operations the library uses are defined: `<=`, `> 0` and
  `+`. `double_to_str` takes the `%g` formatter as a parameter.
- **Value kinds** (`Values.dfy`):
  - The gauge overwrites its value.
  - The counter ignores deltas that are not positive.
  - The histogram's constructor makes one zero bucket per distinct threshold.
  - `observe` bumps every bucket whose threshold is at or above the value.

  `MetricValue` is the object that `operator[]` hands out, and its methods
  update it in place. The bucket loop of `observe` is the method
  `BumpBuckets`.
- **Metrics and the registry** (`Metrics.dfy`). A `Metric` holds a map from
  label set to value object. Its operations are:
  - get-or-create (`operator[]`, `get_default_metric`);
  - `remove`, in exact and in subset mode;
  - `clear`;
  - the metric-level `set`, `increment` and `observe`;
  - registration in and removal from the `Registry`'s set.
- **Renderer** (`Exposition.dfy`). Each `printTo` is a function that returns
  the text it writes:
  - `print_labels`;
  - the simple and histogram sample lines;
  - the HELP and TYPE header lines;
  - the metric text;
  - the registry's concatenation.
- **Legacy API** (`Legacy.dfy`), from `prometheus.h` and `prometheus.cpp`. It
  has no global labels and no histogram, and formats values with
  `std::to_string`. Output goes to a writer callback.
- **BufferedPrint** (`BufferedPrint.dfy`). A fixed-size array and a cursor,
  filled by the chunking `write` loop and flushed when the buffer is full or
  the object is destroyed.

The non-exact `remove` tests `labels.is_subset_of(it->first)`
(src/PicoPrometheus.cpp:101). It erases every entry whose key *contains* all
the argument's pairs. `Metrics.Metric.Remove` models this.

`src/PicoPrometheus.h` declares classes with a `Prometheus` prefix, but
`src/PicoPrometheus.cpp` defines `PicoPrometheus::Labels`, `Metric` and
`Registry`, and reads `registry.labels`. Behaviour follows the .cpp file. The
value mutators and the type names follow the header.

## Model

| member | source | states |
|---|---|---|
| LabelSets.EntriesMembership | src/PicoPrometheus.h:16-20 | a (name, value) pair is printed for a label set exactly when the map holds that value for that name |
| LabelSets.EntriesDistinctNames | src/PicoPrometheus.h:16-20 | a label set yields each name at most once, in strictly ascending string order |
| LabelSets.EntriesInjective | src/PicoPrometheus.h:16-20 | two label sets with the same entry sequence are equal |
| LabelSets.StrLessStrictTotal | src/PicoPrometheus.h:16-20 | std::string comparison is a strict total order, so the map iterates its names in one well-defined order |
| LabelSets.LabelsLessStrictTotal | src/PicoPrometheus.h:60 | label sets compared as std::map keys form a strict total order |
| LabelSets.SortedLabelSets | src/PicoPrometheus.cpp:139-143 | a metric's entries are visited once each, in strictly ascending label-set order |
| LabelSets.AllPresent | src/PicoPrometheus.cpp:73-81 | the entry-by-entry loop succeeds exactly when every visited pair is present in the other set with an equal value |
| LabelSets.IsSubsetOf | src/PicoPrometheus.cpp:72-83 | `is_subset_of` holds iff every name of the set is in the other set with an equal value |
| LabelSets.SubsetBounds | src/PicoPrometheus.cpp:72-83 | the empty set is a subset of every set, and every set is a subset of itself |
| LabelSets.SubsetTransitive | src/PicoPrometheus.cpp:72-83 | subset is transitive |
| Doubles.ToStr | src/PicoPrometheus.cpp:9-24 | definition: NaN prints as `NaN`, +inf as `+Inf`, -inf as `-Inf`, and a finite value through `%g` |
| Doubles.NonFiniteTokensDistinct | src/PicoPrometheus.cpp:10-18 | the three non-finite values print as three different tokens |
| Doubles.LessOrEqualMonotone | src/PicoPrometheus.cpp:179 | a value at or below one threshold is at or below every larger threshold |
| Values.Incremented | src/PicoPrometheus.h:102 | definition of a counter's new value: the delta is added when `delta > 0` and ignored otherwise; CounterNeverDecreases and IncrementAllFrom state its properties |
| Values.FreshHistogram | src/PicoPrometheus.cpp:169-174 | definition of the constructed histogram: one zero bucket per threshold, count and sum 0; FreshHistogramBucketCount and FreshHistogramCumulative state its properties |
| Values.Observed | src/PicoPrometheus.cpp:176-185 | definition of one observation: count + 1, the buckets of ObservedBuckets, sum + value; ObservedSpec states its properties |
| Values.ObservedBuckets | src/PicoPrometheus.cpp:177-182 | definition of the bucket map after one observation: one more in every bucket whose threshold is at or above the value; BumpBuckets is the loop proved equal to it |
| Values.Thresholds | src/PicoPrometheus.h:135 | a bucket map yields each threshold once, in strictly ascending order |
| Values.CounterIsSumOfPositiveDeltas | src/PicoPrometheus.h:102 | a counter incremented from 0 holds the sum of its positive deltas, or +inf once a +inf delta occurs |
| Values.CounterNeverDecreases | src/PicoPrometheus.h:102 | no increment makes a finite counter smaller |
| Values.IncrementAllFrom | src/PicoPrometheus.h:102 | from a finite start, increments add exactly the positive finite deltas, unless a +inf delta occurs |
| Values.IncrementAllFromInfinity | src/PicoPrometheus.h:102 | a counter at +inf stays there, because NaN and -inf deltas are not positive |
| Values.MetricValue.Gauge | src/PicoPrometheus.h:85 | a fresh gauge value is 0 |
| Values.MetricValue.Counter | src/PicoPrometheus.h:85 | a fresh counter value is 0 |
| Values.MetricValue.Set | src/PicoPrometheus.h:96 | after `set(x)` the gauge holds exactly x |
| Values.MetricValue.Increment | src/PicoPrometheus.h:102 | the counter gains the delta (1 by default) when it is positive and is unchanged otherwise |
| Values.MetricValue.Histogram | src/PicoPrometheus.cpp:169-174 | the constructor loop builds one zero bucket per distinct threshold, count 0, sum 0 |
| Values.FreshHistogramBucketCount | src/PicoPrometheus.cpp:169-174 | distinct thresholds give exactly one bucket each |
| Values.FreshHistogramCumulative | src/PicoPrometheus.cpp:169-174 | a fresh histogram is cumulative: no bucket exceeds a higher one or the count |
| Values.BumpBuckets | src/PicoPrometheus.cpp:177-182 | the ascending loop bumps exactly the buckets whose threshold is >= the value and keeps the key set |
| Values.BumpKeys | src/PicoPrometheus.cpp:177-182 | over any repetition-free enumeration of the thresholds, the loop leaves exactly the bucket map of one observation |
| Values.MetricValue.Observe | src/PicoPrometheus.cpp:176-185 | `observe` bumps the matching buckets, adds the value to sum and 1 to count |
| Values.ObservedSpec | src/PicoPrometheus.cpp:176-185 | observe keeps the histogram cumulative, adds 1 to count and the value to sum, keeps the thresholds, and bumps a bucket iff the value is <= its threshold |
| Values.ObserveAllIsSummary | src/PicoPrometheus.cpp:176-185 | a run of observations leaves count, buckets and sum equal to their closed forms |
| Values.HistogramCountsObservations | src/PicoPrometheus.cpp:169-185 | from a fresh histogram, count is the number of observations, each bucket the number at or below its threshold, sum the sum of all of them |
| Exposition.PrintPairsIsJoin | src/PicoPrometheus.cpp:33-56 | the loop with the `first` flag writes the pairs separated by commas, with no leading or trailing comma |
| Exposition.PrintPairsAppend | src/PicoPrometheus.cpp:46-60 | writing two pair lists one after the other, with the flag carried over, is writing their concatenation |
| Exposition.PrintLabels | src/PicoPrometheus.cpp:26-65 | definition of `print_labels`; PrintLabelsShape and LeIsLast state its shape |
| Exposition.Line | src/PicoPrometheus.cpp:156-165 | definition of a sample line: name, label block, space, formatted value, newline; ValueLinesStartWithName states that it begins with the name |
| Exposition.ValueLines | src/PicoPrometheus.cpp:187-213 | definition of a value's lines (one line for a gauge or counter, the histogram lines otherwise); HistogramLinesShape and HistogramLineCount state their shape |
| Exposition.HistogramHead | src/PicoPrometheus.cpp:204-206 | the three fixed histogram lines: `_count`, the `+Inf` `_bucket` line, `_sum` |
| Exposition.BucketLines | src/PicoPrometheus.cpp:208-210 | one `_bucket` line per given threshold, in the given order, each with that threshold's count |
| Exposition.HeaderLine | src/PicoPrometheus.cpp:123-136 | definition of a header line `# <prefix> <name> <value>`; OneHeaderPerMetric states that only these lines are comments |
| Exposition.MetricLines | src/PicoPrometheus.cpp:115-146 | definition of a metric's lines: none without values, otherwise HELP, TYPE and the entries' lines; MetricTextShape states their shape |
| Exposition.MetricText | src/PicoPrometheus.cpp:115-146 | definition: the concatenation of MetricLines; MetricTextShape states its shape |
| Exposition.RegistryText | src/PicoPrometheus.cpp:215-221 | definition: the metric texts one after another; ConcatEmpty and SilentMetricInvisible state its properties |
| Exposition.PrintLabelsShape | src/PicoPrometheus.cpp:26-65 | the label block is empty iff there are no global labels, no labels and no `le`; otherwise it is `{` global pairs, local pairs, `le` pair `}`, comma-separated |
| Exposition.LeIsLast | src/PicoPrometheus.cpp:58-62 | when `le` is present it is the last pair, right before `}` |
| Exposition.ConcatEmpty | src/PicoPrometheus.cpp:215-221 | concatenated output is empty iff every part is |
| Exposition.HistogramLinesShape | src/PicoPrometheus.cpp:187-213 | a histogram writes `_count`, the `+Inf` `_bucket` line carrying count, `_sum`, then for the i-th threshold in ascending order a `_bucket` line with `le` set to it and its own bucket count |
| Exposition.InfBucketLabel | src/PicoPrometheus.cpp:205 | the `+Inf` bucket's label block ends with `le="+Inf"}` |
| Exposition.HistogramLineCount | src/PicoPrometheus.cpp:204-210 | a histogram value writes 3 lines plus one per bucket |
| Exposition.GlobalLabelExample | src/PicoPrometheus.cpp:156-165 | a counter `bar` incremented three times by 1 under the global label instance="dev" renders as `bar{instance="dev"} ` followed by the finite formatter's text for 3.0 and a newline |
| Exposition.ValueLinesStartWithName | src/PicoPrometheus.cpp:156-213 | every sample line begins with the metric name |
| Exposition.MetricTextShape | src/PicoPrometheus.cpp:115-146 | a metric without values writes nothing; otherwise HELP line, TYPE line, then each entry's lines in strictly ascending label-set order |
| Exposition.OneHeaderPerMetric | src/PicoPrometheus.cpp:122-143 | with a name not starting with `#`, the HELP and TYPE lines come first and are the only comment lines |
| Exposition.SimpleEntryLineCount | src/PicoPrometheus.cpp:139-143 | a metric of gauges or counters writes one line per entry |
| Exposition.HistogramEntryLineCount | src/PicoPrometheus.cpp:139-143 | a histogram metric with n buckets writes 3 + n lines per entry |
| Exposition.UniformEntryLineCount | src/PicoPrometheus.cpp:139-143 | when every entry writes m lines, a metric writes m lines per entry |
| Exposition.SilentMetricInvisible | src/PicoPrometheus.cpp:215-221 | a metric that writes nothing leaves the registry's output unchanged wherever it stands |
| Metrics.TypeName | src/PicoPrometheus.h:111-150 | definition: the type names are `gauge`, `counter` and `histogram` |
| Metrics.TypeNameIdentifiesClass | src/PicoPrometheus.h:111-150 | two metrics have the same TYPE name iff they are of the same class |
| Metrics.Initial | src/PicoPrometheus.h:77-79 | definition of a constructed value's state by metric class; InitialConforms states its properties |
| Metrics.Metric.ConstructValue | src/PicoPrometheus.h:77-79 | a newly constructed value is fresh and in the metric's initial state |
| Metrics.InitialConforms | src/PicoPrometheus.h:152-154 | a constructed value is of the metric's kind; a histogram value uses the metric's own thresholds, with zero buckets, count and sum |
| Metrics.ObservedConforms | src/PicoPrometheus.h:145 | observing keeps a histogram's thresholds those of its metric |
| Metrics.Unmatched | src/PicoPrometheus.cpp:98-106 | the entries a non-exact remove keeps are exactly those whose key does not contain every argument pair, with their values unchanged |
| Metrics.UnmatchedBounds | src/PicoPrometheus.cpp:94-109 | a non-exact remove of `{}` erases everything, and a remove always erases the argument's own entry |
| Metrics.UnmatchedAntitone | src/PicoPrometheus.cpp:101 | a larger argument removes fewer entries |
| Metrics.EraseMatching | src/PicoPrometheus.cpp:98-106 | the erase loop leaves exactly the unmatched entries |
| Metrics.EraseKeys | src/PicoPrometheus.cpp:98-106 | over any repetition-free enumeration of the keys, the loop keeps exactly the entries whose key does not contain the argument, with their values |
| Metrics.Registry.constructor | src/PicoPrometheus.h:159 | a registry starts with its global labels (none by default) and no metrics, so every registered metric belongs to it |
| Metrics.Registry.Text | src/PicoPrometheus.cpp:215-221 | the registry writes the metrics' texts one after another, each rendered with this registry's global labels, and nothing exactly when no registered metric holds a value |
| Metrics.Registry.TextsUseGlobalLabels | src/PicoPrometheus.cpp:139-143 | every registered metric prints its series with the global labels of the registry it is registered in |
| Metrics.MetricTexts | src/PicoPrometheus.cpp:217-219 | definition: the i-th part of the registry's output is the i-th metric's text |
| Metrics.Metric.constructor | src/PicoPrometheus.cpp:85-88 | constructing a metric adds it to the registry's set, keeps every registered metric belonging to that registry, and changes nothing else |
| Metrics.Metric.Destroy | src/PicoPrometheus.cpp:90-92 | destroying a metric erases it from the registry's set, keeping every registered metric belonging to that registry |
| Metrics.Metric.Get | src/PicoPrometheus.cpp:148-154 | an existing value is returned and the map is unchanged; otherwise exactly one fresh value in the initial state is added under that label set |
| Metrics.Metric.GetDefault | src/PicoPrometheus.h:74 | `get_default_metric` is get-or-create on the empty label set |
| Metrics.Metric.Remove | src/PicoPrometheus.cpp:94-109 | exact mode (the default) erases only the given key; subset mode erases exactly the keys that contain the argument; all other entries are untouched |
| Metrics.Metric.Clear | src/PicoPrometheus.cpp:111-113 | `clear` leaves no entries |
| Metrics.Metric.Text | src/PicoPrometheus.cpp:115-146 | definition of `Metric::printTo` over the current values and the registry's global labels; TextEmpty and MetricTextShape state its properties |
| Metrics.Metric.Set | src/PicoPrometheus.h:108 | the gauge's `set` changes only the empty-label entry, to x; every label set keeps the value object it had, the `{}` one is created only when absent, and no other value object changes |
| Metrics.Metric.Increment | src/PicoPrometheus.h:117 | the counter's `increment` changes only the empty-label entry, by the delta (1 by default) when it is positive; value objects keep their identity and no other one changes |
| Metrics.Metric.Observe | src/PicoPrometheus.h:145 | the histogram's `observe` changes only the empty-label entry, by one observation; value objects keep their identity and no other one changes |
| Metrics.Metric.TextEmpty | src/PicoPrometheus.cpp:118-120 | a metric writes nothing exactly when it holds no value |
| Legacy.TypeNamesDistinct | src/prometheus.h:115-124 | the legacy type names `gauge` and `counter` differ |
| Legacy.DumpLabelsIsPrintLabels | src/prometheus.cpp:63-83 | `dump_labels` writes nothing for an empty set; otherwise `{k="v",...}` in key order, with commas only between pairs |
| Legacy.DumpLabels | src/prometheus.cpp:63-83 | definition of `dump_labels`; DumpLabelsIsPrintLabels states its shape |
| Legacy.SimpleLine | src/prometheus.cpp:87-94 | definition of a legacy sample line; SimpleLineMatchesCurrent relates it to the current one |
| Legacy.DumpText | src/prometheus.cpp:26-51 | definition of `PrometheusMetric::dump`; DumpTextShape states its shape |
| Legacy.SimpleLineMatchesCurrent | src/prometheus.cpp:87-94 | a legacy sample line is name, label block, space, `std::to_string` value, newline; it is the current line without global labels |
| Legacy.EntryTexts | src/prometheus.cpp:46-50 | definition: one line per entry, for the entry's own label set and value |
| Legacy.DumpTextShape | src/prometheus.cpp:26-51 | a metric without values writes nothing; otherwise HELP, TYPE, then one line per entry in strictly ascending key order |
| Legacy.SimpleValue.constructor | src/prometheus.h:82-89 | `new T()` makes a value of the requested class (gauge value or counter value), holding 0 |
| Legacy.SimpleValue.Set | src/prometheus.h:97-101 | only a gauge value has `set(x)`, which overwrites the value with x |
| Legacy.SimpleValue.Increment | src/prometheus.h:103-107 | only a counter value has `increment(d)`, which changes the value only when d > 0 (d is 1 by default) |
| Legacy.Prometheus.constructor | src/prometheus.h:129 | a legacy registry starts with no metrics |
| Legacy.Prometheus.Text | src/prometheus.cpp:96-100 | the registry writes nothing exactly when none of its metrics holds a value |
| Legacy.DumpAll | src/prometheus.cpp:96-100 | the concatenated dumps are empty iff every metric is empty |
| Legacy.Metric.constructor | src/prometheus.cpp:17-20 | the legacy constructor adds the metric to the registry's set |
| Legacy.Metric.Destroy | src/prometheus.cpp:22-24 | the legacy destructor erases it |
| Legacy.Metric.Get | src/prometheus.cpp:53-59 | a value of the metric's own class is constructed only when the key is absent, and a repeated call returns the same object |
| Legacy.Metric.GetDefault | src/prometheus.h:78 | `get_default_metric` uses the `{}` key |
| Legacy.Metric.Set | src/prometheus.h:112 | the legacy gauge's `set` changes only the `{}` entry, to x; value objects keep their identity and no other one changes |
| Legacy.Metric.Increment | src/prometheus.h:121 | the legacy counter's `increment` (delta 1 by default) changes only the `{}` entry, by the delta when it is positive; value objects keep their identity and no other one changes |
| Legacy.Metric.Text | src/prometheus.cpp:26-51 | definition: the dump of the current values; TextEmpty states when it is empty |
| Legacy.Metric.TextEmpty | src/prometheus.cpp:26-29 | a legacy metric with no entries writes nothing, and one with entries writes something |
| Buffering.BufferedPrint.constructor | src/BufferedPrint.h:7-10 | a buffer of the template size (256 by default) starts empty, with nothing sent downstream |
| Buffering.BufferedPrint.Write | src/BufferedPrint.h:13-27 | returns size; the bytes sent downstream plus the buffer are everything written; every write sent downstream is one full buffer; the number of sends and the final cursor are the quotient and remainder of the fill by the buffer size |
| Buffering.BufferedPrint.CopyChunk | src/BufferedPrint.h:16-20 | the memcpy appends the chunk to the buffered bytes and advances the cursor |
| Buffering.BufferedPrint.WriteChunk | src/BufferedPrint.h:15-23 | one iteration copies between 1 byte and what fits, appends it to what was accepted, and sends the buffer as one full write exactly when it fills |
| Buffering.BufferedPrint.WriteByte | src/BufferedPrint.h:29-31 | writing one byte is writing the one-byte array |
| Buffering.BufferedPrint.FlushBuffer | src/BufferedPrint.h:38-43 | does nothing when the cursor is 0; otherwise sends `buffer[0..pos)` as one write and resets the cursor |
| Buffering.BufferedPrint.Close | src/BufferedPrint.h:11 | the final flush accepts nothing new, issues no write when the buffer is empty and otherwise exactly one write of the buffered bytes; afterwards downstream has been asked to write every byte passed to Write and WriteByte, in order |
| Buffering.FlattenPrefix | src/BufferedPrint.h:40 | bytes already sent downstream stay a prefix of what is sent later; `Write`, `WriteByte` and `Close` state this through it |
| Buffering.DivModStep | src/BufferedPrint.h:18-23 | a chunk either stays inside the buffer or exactly fills it, and the cursor wraps to 0 |

## Left out

- The byte counts that `Print::print`, `printTo` and `write` return and add into `ret`. They depend on the Print implementation. Output is modelled as the text written; `Buffering.BufferedPrint.Write` does return its count.
- `snprintf("%g")` and `std::to_string` digits. They are the parameters `fmt` and `toString`, so only the NaN and infinity branches of `double_to_str` are specified.
- The result of the downstream `write` in `flush_buffer` (src/BufferedPrint.h:40-41), which the source ignores before resetting the cursor. A short downstream write loses bytes there. The model records the write calls issued, so `downstream` is what was asked to be written, not what was received.
- Strings printed through `c_str()` stop at the first NUL character. Metric names, help texts, label names and label values are assumed to contain no NUL, and the model appends the whole string.
- IEEE-754 rounding and overflow of finite values. Finite doubles are reals, and `+` on them is exact.
- Values.MetricValue.Observe: `count` and the bucket counts are `unsigned long` in C++; the model uses unbounded naturals, so the wrap-around after 2^32 or 2^64 observations is not modelled.
- Values.MetricValue.Histogram: thresholds are finite reals. NaN or infinite thresholds in a bucket list are not modelled.
- Metrics.Registry.Text: `std::set<Metric*>` iterates in pointer order. The model takes the order as a parameter: any enumeration of the registered set.
- Legacy.Prometheus.Text: pointer order is a parameter here too.
- Characters compare as Dafny `char` code points, standing for the byte order of `std::string` comparison.
- Label values are printed without escaping, as in the source, which has escaping as a TODO.
- `register_metrics_endpoint` and `PrometheusDumpable::dump(Print&)` are left out. They connect output to an ESP8266 web server or a `Print`.
- The Arduino example sketch, with its `setup`/`loop`, `Serial`, `random` and `delay`.
- Gauge binding to external sources and locking wrappers, which the shown code does not contain. `get_value()` is modelled as the stored value.
- Dangling metric-to-registry references. Registration is an explicit set insert and erase on the registry object.
- Buffering.BufferedPrint.constructor: the buffer size must be positive. With size 0, `write` of a non-empty array loops forever.
