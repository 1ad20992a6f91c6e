# Energy-consumption experiment toolkit: a Dafny model of its pure core

This project models the data-handling core of a browser energy-consumption
experiment toolkit. The toolkit runs a browser through scripted actions,
collects per-tab performance counters from the browser, reads a power
logger, and controls a TP-Link smart plug that keeps the laptop battery
charged between runs. Afterwards it reduces and aligns all of these streams
into one table. The model keeps the parts that compute; process launching,
threads, files and the network are left out.

Sixteen modules, one per file:

- `Outcomes`: `Option`, `Result` and an `Error` datatype that names the
  Python exception or failure each error path raises (`KeyError`,
  `IndexError`, `ValueError`, `struct.error`, a socket time-out, …).
- `Text`: strings as `seq<char>`, with `str.split`, `join`, `upper`,
  `lower`, `capitalize`, `replace`, substring search, and decimal rendering
  of naturals.
- `Grouping`: JSON objects, Python dicts and JavaScript object literals as
  association lists with distinct keys. The lists happen to be in insertion
  order, but no contract relies on or promises an order: Python 2 dicts are
  unordered, and JavaScript lists integer-like keys (the window ids) first,
  in ascending order. It also holds the "group records into a table by key,
  folding each group" operation and its conservation lemmas.
- `JsonValue`: decoded JSON values, with Python's `in`, `[]` and
  truthiness over them, including the `TypeError` paths.
- `SmartHomeProtocol` (`energy_consumption/tp100/tp100.py`): the autokey XOR
  cipher with initial key 171, the 4-byte big-endian length header, the
  discovery datagram, and the read loop of `query`.
  - Bytes are a `byte` newtype over 0..255.
  - XOR is defined bit by bit on naturals.
- `SmartDevice` (`tp100.py`): how requests are built and replies validated
  in `_query_helper`, and the field-selection rules of the device
  properties. The transport is a function parameter.
- `PlugController` (`energy_consumption/tp100/experiment_tp100.py`): the
  battery-charge hysteresis of `ExperimentTp100.run`.
  - Battery readings are a sequence of `real`s.
  - The polling loop is a method with loop invariants, proved equal to a
    functional reference.
- `CounterSnapshot` and `LegacyCounterSnapshot`: `promiseSnapshot` from
  the newer and the older `retrieve_performance_counters.js`. Each folds
  the browser's per-counter records into per-tab totals.
- `Timeline`: timestamps are integers in microseconds (`Second` is
  1000000). It holds tables sorted by timestamp, the two as-of lookups,
  and the one-second resampling grid.
- `TabReduction` (`Energy_Consumption/reduction/performance_reduction.py`
  and the reducer classes): `agg_sum`, `filter_one`,
  `reduce_perf_counters` and `parse_perf`.
- `ExperimentReduction` (`energy_consumption/reduction/experiment_reduction.py`):
  as-of labelling, the sync-marker placement, the power-logger clock offset
  and the inner join.
- `LegacyReduction` (`Energy_Consumption/reduction.py`): the older reducer,
  which labels each row with the next event rather than the previous one.
  It also holds `agg_top`, proved end to end against the older snapshot
  collector.
- `EdaUtils` and `EdaPatterns` (`Energy_Consumption/EDA/utils/ng_utes.py`):
  - the clamped first difference;
  - key-wise dictionary folding;
  - the tab-extraction helpers;
  - the power-logger column renaming;
  - the action abbreviations.

  The regular expressions of `rn_hobo1` and `abbrev_action` are modelled
  as small matchers, with lazy and greedy `.+` matching any character but a
  newline, as in Python's `re`.
- `CrfBootstrap` (`notebooks/Users/cdowhygelund@mozilla.com/crf_demo_data_reduction.py`):
  - the per-client histogram summation;
  - the estimator;
  - histogram weighting and merging, with the algebraic laws that make the
    Spark reduction order-independent in exact arithmetic;
  - the test/control comparison map between consecutive builds;
  - the pairing in `calc_relds`.

  Histograms are finite maps from bin to value. The notebook's values are
  doubles after `unit_density`; the model's are exact integers.

## Model

| member | source | states |
|---|---|---|
| SmartHomeProtocol.PackLength | energy_consumption/tp100/tp100.py:96 | `struct.pack(">I", n)`: four bytes whose big-endian value is `n`, and `struct.error` exactly when `n` does not fit in 32 bits |
| SmartHomeProtocol.UnpackLength | energy_consumption/tp100/tp100.py:62 | `struct.unpack(">I", chunk[0:4])`: succeeds exactly on chunks of at least four bytes, giving their big-endian value, which is below 2^32 |
| SmartHomeProtocol.Encipher | energy_consumption/tp100/tp100.py:93-101 | autokey chaining: output has the input's length, and cipher byte i is plain byte i XOR the key, where the key is 171 for byte 0 and the previous cipher byte after that |
| SmartHomeProtocol.Decipher | energy_consumption/tp100/tp100.py:112-118 | decryption chaining: plain byte i is cipher byte i XOR the previous cipher byte, with 171 before the first |
| SmartHomeProtocol.Encrypt | energy_consumption/tp100/tp100.py:87-103 | framing: a 4-byte big-endian length of the plaintext followed by exactly that many cipher bytes; fails with `struct.error` when the length does not fit |
| SmartHomeProtocol.DecipherEncipher | energy_consumption/tp100/tp100.py:87-122 | deciphering undoes enciphering for every byte string and every initial key |
| SmartHomeProtocol.EncipherDecipher | energy_consumption/tp100/tp100.py:87-122 | enciphering undoes deciphering: the cipher is a bijection on byte strings of each length |
| SmartHomeProtocol.XorBitsCancel | energy_consumption/tp100/tp100.py:93-118 | XOR with the same key twice gives back the original n-bit value, the law both chaining loops rely on |
| SmartHomeProtocol.EncryptRoundTrip | energy_consumption/tp100/tp100.py:87-122 | `decrypt(encrypt(s)[4:]) == s` for every byte string whose length fits the header |
| SmartHomeProtocol.DiscoveryDatagram | energy_consumption/tp100/tp100.py:499-505 | the discovery datagram is `encrypt(req)` without its header, and `decrypt` of it gives the request back |
| SmartHomeProtocol.ReadReply | energy_consumption/tp100/tp100.py:58-66 | the read loop: it times out with no chunks and raises `struct.error` when the first chunk is shorter than the header; otherwise it succeeds exactly when some chunk stops it, and then the buffer is the chunks up to the first one that stops it |
| SmartHomeProtocol.ReceiveStops | energy_consumption/tp100/tp100.py:58-65 | the loop keeps reading until the buffer holds the header's length plus 4 bytes (when that length is positive) or an empty chunk arrives |
| SmartHomeProtocol.QueryReply | energy_consumption/tp100/tp100.py:58-84 | the payload `query` decrypts is the buffer without its 4-byte header: same length, and enciphering it again gives exactly the received bytes after the header; it fails exactly when the read loop fails |
| SmartHomeProtocol.Decrypt | energy_consumption/tp100/tp100.py:106-122 | the plaintext has the ciphertext's length, and enciphering it from key 171 gives the ciphertext back |
| SmartHomeProtocol.ChunkedReplyDecodes | energy_consumption/tp100/tp100.py:31-84 | a non-empty encrypted reply, split into non-empty chunks of which the first holds at least the 4-byte header, is read back and decrypted to the original reply |
| SmartDevice.Request | energy_consumption/tp100/tp100.py:162-166 | the request is `{target: {cmd: arg}}`, plus a `context: {child_ids: [context]}` entry exactly when a context is set |
| SmartDevice.DropErrCode | energy_consumption/tp100/tp100.py:189-192 | the success value is the result object without `err_code`; a result that is not an object or has no `err_code` raises |
| SmartDevice.QueryHelper | energy_consumption/tp100/tp100.py:149-192 | a transport failure becomes "Communication error"; the call succeeds exactly when the reply is a dict whose target entry is a dict with `err_code` absent or 0 and a command entry that is a dict holding `err_code`, and then returns that entry without `err_code` |
| SmartDevice.UnwrapErrors | energy_consumption/tp100/tp100.py:177-192 | each refusal with the source's error: missing target, non-zero `err_code`, missing command, and a command result without `err_code` (`KeyError` from `del`) |
| SmartDevice.Location | energy_consumption/tp100/tp100.py:353-372 | latitude/longitude are preferred, then latitude_i/longitude_i, and otherwise both are None |
| SmartDevice.Mac | energy_consumption/tp100/tp100.py:386-400 | `str` of 'mac' when present, else `str` of 'mic_mac', and a string value is returned as it is; with neither the property raises |
| JsonValue.ToText | energy_consumption/tp100/tp100.py:395-397 | Python's `str` of a decoded scalar: a string is itself, `None`, `True` and `False` by name, an integer its decimal digits, non-empty and without a leading zero except for 0 itself, after a '-' when negative; a list or dict is refused |
| SmartDevice.State | energy_consumption/tp100/tp100.py:577-594 | relay state 0 is OFF, 1 is ON, and anything else (a missing field included) is UNKNOWN |
| SmartDevice.IsOn | energy_consumption/tp100/tp100.py:669-675 | `bool(relay_state)`: a missing relay (read as `None` through the `defaultdict`) is not on, and a number is on exactly when it is non-zero |
| SmartDevice.IsOff | energy_consumption/tp100/tp100.py:426-433 | `not is_on`: a missing relay is off, and a number is off exactly when it is zero |
| SmartDevice.StateAgreesWithIsOn | energy_consumption/tp100/tp100.py:670-675 | `state` agrees with `is_on` and with `is_off`, its negation (line 433) |
| SmartDevice.SetState | energy_consumption/tp100/tp100.py:597-613 | "on" and "off" are accepted whatever their case and turn the relay on or off; any other value, a non-string included, raises `ValueError` |
| SmartDevice.SetStateCaseInsensitive | energy_consumption/tp100/tp100.py:606-613 | concrete cases: "on" and "oN" switch on, "Off" switches off, "onn" and the number 1 are refused |
| SmartDevice.SetBrightness | energy_consumption/tp100/tp100.py:629-648 | a device that is not dimmable ignores the call; otherwise only integers 1..100 are accepted and sent, and every other value raises `ValueError` |
| SmartDevice.Features | energy_consumption/tp100/tp100.py:195-219 | the feature string split at every ':': no piece contains ':', and the pieces joined back with ':' give the feature string; a missing feature field gives none, and a non-string one raises `AttributeError` |
| SmartDevice.HasEmeter | energy_consumption/tp100/tp100.py:660-667 | holds exactly when 'ENE' is one of the ':'-separated features |
| SmartDevice.Led | energy_consumption/tp100/tp100.py:692-698 | the LED is on exactly when `led_off` is not 1 |
| SmartDevice.SetLed | energy_consumption/tp100/tp100.py:701-707 | the call is `system.set_led_off` with `off` 0 for a truthy state and 1 otherwise |
| SmartDevice.LedRoundTrip | energy_consumption/tp100/tp100.py:692-707 | reading the LED after the setter's `off` value is stored gives the truthiness of the state that was set |
| SmartDevice.GetDeviceClass | energy_consumption/tp100/tp100.py:525-545 | a reply without `system`, or whose `system` has no `get_sysinfo`, leaves `type` unbound and raises `UnboundLocalError`; otherwise the class is decided by the `get_sysinfo` value alone; a scalar reply raises `TypeError` on `in` |
| SmartDevice.DeviceClassOfSysinfo | energy_consumption/tp100/tp100.py:525-545 | a 'smartplug' type without children gives SmartPlug, one with children gives the "boo" placeholder, and any other type gives None |
| SmartDevice.DeviceClassWithoutSystem | energy_consumption/tp100/tp100.py:525-545 | with no 'system' key the function reaches its `return` with the type unbound, which raises `UnboundLocalError` |
| PlugController.FirstAtLeast | energy_consumption/tp100/experiment_tp100.py:26-28 | the poll that ends the charge loop: every earlier reading is below the bound, and the one found is at or above it |
| PlugController.Controller | energy_consumption/tp100/experiment_tp100.py:20-33 | the plug is switched on only when the first reading is below the low threshold and the plug was off; a finished run leaves the plug off; above the low threshold the plug is never switched on and is switched off only if it was on |
| PlugController.RunController | energy_consumption/tp100/experiment_tp100.py:20-33 | the polling method computes the controller's run, and every run that finishes leaves the plug off |
| PlugController.ChargeUntilHigh | energy_consumption/tp100/experiment_tp100.py:23-30 | in the low branch the run finishes exactly when some reading reaches the high threshold, and it finishes at the first such reading |
| PlugController.ConfiguredThresholdsAsWritten | energy_consumption/tp100/experiment_tp100.py:11 | `kwargs.get('battery_thresh', (0.1, 0.9))` as written: a given pair is kept, and the default pair lies below 1, a fraction where the battery reads in percent |
| PlugController.ConfiguredThresholds | energy_consumption/tp100/experiment_tp100.py:11 | corrected default: a given pair is kept, and the default pair is ordered within 0..100 percent |
| PlugController.DefaultThresholdsIgnoreLowBattery | energy_consumption/tp100/experiment_tp100.py:11-25 | as written, the default thresholds leave an off plug off for a battery at 5 percent |
| PlugController.DefaultThresholdsChargeLowBattery | energy_consumption/tp100/experiment_tp100.py:11-30 | with the default thresholds in percent, a battery below 10 percent is charged until a reading of at least 90 percent, and the plug ends off |
| CounterSnapshot.EffectiveWindow | energy_consumption/data_streams/js/retrieve_performance_counters.js:15-16 | a worker whose window id is 0, missing or the max-uint64 sentinel is moved to window 1; every other counter keeps its window |
| CounterSnapshot.WindowKey | energy_consumption/data_streams/js/retrieve_performance_counters.js:33-38 | a window id used as an object key is its decimal rendering, and "undefined" when it is missing |
| CounterSnapshot.AddonHosts | energy_consumption/data_streams/js/retrieve_performance_counters.js:3-6 | the add-on map has exactly the active extensions' host names as keys, each mapped to the id of the last extension with that host name, the one `Map.set` keeps |
| CounterSnapshot.ChildCounterId | energy_consumption/data_streams/js/retrieve_performance_counters.js:47-50 | a child's counter id is pid, ':' and counter id, and splits back into the two |
| CounterSnapshot.Children | energy_consumption/data_streams/js/retrieve_performance_counters.js:47-50 | a child entry is recorded for every counter that is not top-level or is a worker, and for no other counter |
| CounterSnapshot.AccumulateTab | energy_consumption/data_streams/js/retrieve_performance_counters.js:17-50 | a tab takes window and host from its first counter; its dispatch count, duration and memory are the sums over its counters of the item counts, the durations and the memory fields (media counted as audio + video + resources), and its children are those of its counters |
| CounterSnapshot.Snapshot | energy_consumption/data_streams/js/retrieve_performance_counters.js:9-50 | the tabs object has each key once, and a tab exactly under the keys some counter is grouped under |
| CounterSnapshot.SnapshotTab | energy_consumption/data_streams/js/retrieve_performance_counters.js:33-50 | the tab under a key is built from exactly the counters whose key (the add-on id when the host is an add-on host, else the window) is that key, in order |
| CounterSnapshot.SnapshotConservation | energy_consumption/data_streams/js/retrieve_performance_counters.js:44-46 | dispatch count, duration and memory summed over all tabs equal the sums over all counters |
| LegacyCounterSnapshot.AccumulateTab | Energy_Consumption/retrieve_performance_counters.js:14-25 | a tab's totals are the sums over its counters, and its children are exactly its counters that are not top-level, top-level workers excluded |
| LegacyCounterSnapshot.Children | Energy_Consumption/retrieve_performance_counters.js:23-25 | a child entry is recorded for every counter that is not top-level and for no other counter, so a top-level worker records none |
| LegacyCounterSnapshot.Snapshot | Energy_Consumption/retrieve_performance_counters.js:3-27 | the tabs object has each key once, and a tab exactly under the effective window keys of the counters |
| LegacyCounterSnapshot.SnapshotTab | Energy_Consumption/retrieve_performance_counters.js:8-20 | tabs are keyed by the effective window alone, and each is built from exactly the counters with that key |
| LegacyCounterSnapshot.SnapshotConservation | Energy_Consumption/retrieve_performance_counters.js:21-22 | dispatch count and duration summed over all tabs equal the sums over all counters |
| Grouping.GroupFold | energy_consumption/data_streams/js/retrieve_performance_counters.js:38-43 | the lookup-or-create loop never records a key twice |
| Grouping.GroupFoldKeys | energy_consumption/data_streams/js/retrieve_performance_counters.js:38-43 | the snapshot has a tab exactly for the keys of its records, one per distinct key |
| Timeline.SortBy | energy_consumption/reduction/experiment_reduction.py:47 | `sort_values('timestamp')`: the output is sorted by timestamp and is a permutation of the input |
| Timeline.LastAtOrBefore | energy_consumption/reduction/experiment_reduction.py:110 | `[timestamp <= t].iloc[-1]`: the last event at or before t, or none exactly when every event is later |
| Timeline.FirstAtOrAfter | Energy_Consumption/reduction.py:49 | `[timestamp >= t].iloc[0]`: the first event at or after t, or none exactly when every event is earlier |
| Timeline.ActionAsOf | energy_consumption/reduction/experiment_reduction.py:109-111 | `iloc[-1]`: the action of the last event, by position, whose timestamp is at or before t; `IndexError` exactly when no event is at or before t |
| Timeline.ActionAtOrAfter | Energy_Consumption/reduction.py:48-50 | `iloc[0]`: the action of the first event, by position, whose timestamp is at or after t; `IndexError` exactly when no event is at or after t |
| Timeline.LastIsLatest | energy_consumption/reduction/experiment_reduction.py:109-111 | on a log sorted by time, the last matching event is the latest in time among events at or before t |
| Timeline.FirstIsEarliest | Energy_Consumption/reduction.py:48-50 | on a log sorted by time, the first matching event is the earliest in time among events at or after t |
| Timeline.Grid | energy_consumption/reduction/experiment_reduction.py:62 | the resampling index: exactly the whole seconds between the first and last timestamp, one second apart |
| TabReduction.AggSum | Energy_Consumption/reduction/performance_reduction.py:4-16 | duration and dispatch count are the sums over all tabs, and the window count is the number of tabs |
| TabReduction.FilterOne | Energy_Consumption/reduction/performance_reduction.py:19-26 | tab '1's duration and dispatch count with the number of tabs; `KeyError` exactly when there is no tab '1' |
| TabReduction.ReducePerfCounters | energy_consumption/reduction/experiment_reduction.py:143-157 | no snapshot at all raises `AttributeError`; otherwise one reduced row per raw snapshot, carrying that snapshot's timestamp and its reducer's result, and `KeyError` exactly when one snapshot's reduction fails |
| TabReduction.ReduceEach | energy_consumption/reduction/experiment_reduction.py:143-157 | `tabs.apply` over the snapshots: one row per snapshot with its timestamp and its reducer's result, and `KeyError` exactly when one snapshot's reduction fails |
| TabReduction.ReducerFailures | energy_consumption/reduction/experiment_reduction.py:143-157 | the sum reducer fails only on an empty input, and the filter-one reducer fails exactly on an empty input or when some snapshot has no tab '1' |
| TabReduction.ParsePerf | energy_consumption/reduction/experiment_reduction.py:49-63 | fails exactly when the reducer fails, so `AttributeError` on an empty input; otherwise one row per snapshot, sorted by timestamp and a permutation of the reducer's rows, resampled onto the whole seconds between the first and last row |
| ExperimentReduction.ParseExp | energy_consumption/reduction/experiment_reduction.py:45-47 | the experiment log sorted by timestamp, a permutation of the input |
| ExperimentReduction.LabelAsOf | energy_consumption/reduction/experiment_reduction.py:107-114 | a copy of the counters with only an action added: rows, timestamps and columns unchanged, each row labelled with the action in force at its timestamp, and `IndexError` exactly when some row precedes every event |
| ExperimentReduction.SyncTime | energy_consumption/reduction/experiment_reduction.py:117 | the timestamp of the first sync event; `IndexError` exactly when the log has none |
| ExperimentReduction.Nearest | energy_consumption/reduction/experiment_reduction.py:119 | `idxmin` of the distance to the sync time: a row at minimal distance, the first such row |
| ExperimentReduction.PlaceSyncTag | energy_consumption/reduction/experiment_reduction.py:116-119 | the rows sharing the nearest row's timestamp get the sync tag and every other row is unchanged; fails when the log has no sync event or there are no rows |
| ExperimentReduction.MergeCountersAsWritten | energy_consumption/reduction/experiment_reduction.py:98-121 | `merge_counters` as written: same rows, timestamps and columns; every row whose timestamp is that of the row nearest the sync event is tagged, and every other row keeps the action of the last event at or before it; `IndexError` when some row precedes every event, and failure when the log has no sync event or there are no rows |
| ExperimentReduction.MergeCountersAsWrittenKeepsAsOfLabels | energy_consumption/reduction/experiment_reduction.py:107-119 | every row not carrying the sync tag keeps the action in force at its timestamp |
| ExperimentReduction.MergeCountersRelabelsTaggedTable | energy_consumption/reduction/experiment_reduction.py:116-119 | as written, a table whose as-of labels already carry the tag is relabelled, so two rows end up tagged |
| ExperimentReduction.MergeCounters | energy_consumption/reduction/experiment_reduction.py:98-121 | corrected merge: same rows, timestamps and columns, at least one row tagged; the as-of labels are kept when a row already carries the tag, and otherwise the tag is placed |
| ExperimentReduction.MergeCountersKeepsAsOfLabels | energy_consumption/reduction/experiment_reduction.py:114-119 | every row not carrying the sync tag keeps the action in force at its timestamp |
| ExperimentReduction.AlignHobo | energy_consumption/reduction/experiment_reduction.py:84-94 | without the offset, logger timestamps are unchanged; with it, every timestamp is shifted by one delta, so pairwise differences are kept and the first button-down row lands on the first sync-tagged row; `IndexError` when either is missing |
| ExperimentReduction.InnerJoin | energy_consumption/reduction/experiment_reduction.py:95 | every joined row pairs a counter row with a logger row of the same timestamp, and every such pair is present |
| ExperimentReduction.InnerJoinTimestamps | energy_consumption/reduction/experiment_reduction.py:95 | the joined timestamps are exactly the intersection of the counter and logger timestamps |
| ExperimentReduction.MergeHobo | energy_consumption/reduction/experiment_reduction.py:84-96 | succeeds exactly when alignment succeeds, and then joins on the intersection of the counter and aligned logger timestamps |
| ExperimentReduction.Merge | energy_consumption/reduction/experiment_reduction.py:77-82 | `merge` as written, on `merge_counters` as written: a failure of the counter merge is passed on unchanged; it succeeds exactly when the counter merge and the logger alignment succeed, which without the offset is exactly when the counter merge does; the joined timestamps are the pairs of a counter timestamp and an aligned logger timestamp (the logger's own timestamps without the offset); with the offset, a successful counter merge and a button-down row, a sync-tagged row is among the joined rows |
| ExperimentReduction.JoinKeepsSyncRow | energy_consumption/reduction/experiment_reduction.py:84-96 | with the offset and a button-down row, the first sync-tagged counter row meets the shifted button-down logger row, so the join succeeds and keeps a sync-tagged row |
| ExperimentReduction.MergeJoinsBothRows | energy_consumption/reduction/experiment_reduction.py:77-96 | on the input of the first finding below, `merge` as written joins two rows |
| ExperimentReduction.MergeCorrected | energy_consumption/reduction/experiment_reduction.py:77-82 | the same pipeline on the corrected counter merge: its failure is passed on; it succeeds exactly when the counter merge and the logger alignment succeed; the joined timestamps are those of the counters paired with the aligned logger's; with the offset and a button-down row a sync-tagged row is among the joined rows |
| ExperimentReduction.MergeCorrectedJoinsOneRow | energy_consumption/reduction/experiment_reduction.py:77-96 | on the same input, the corrected pipeline joins only the row that carried the tag |
| LegacyReduction.Merge | Energy_Consumption/reduction.py:45-53 | each row labelled with the action at or after its timestamp, rows and columns unchanged; `IndexError` exactly when some row follows every event |
| LegacyReduction.MergeLabelsNextEvent | Energy_Consumption/reduction.py:48-52 | on the sorted log, each label is the action of the earliest event at or after the row |
| LegacyReduction.ParsePerf | Energy_Consumption/reduction.py:34-43 | `AttributeError` exactly for an empty input; otherwise a permutation of the `agg_top` rows, one per snapshot, sorted by timestamp |
| LegacyReduction.ParseExp | Energy_Consumption/reduction.py:25-32 | the experiment log sorted by timestamp, a permutation of the input |
| LegacyReduction.Run | Energy_Consumption/reduction.py:55-59 | `AttributeError` for no snapshot; otherwise one labelled row per snapshot, sorted by timestamp; fails exactly when there is no snapshot or some snapshot follows every event |
| LegacyReduction.AggTopOfSnapshot | Energy_Consumption/reduction.py:69-81 | `agg_top` of an older snapshot: duration and dispatch count summed over every counter, and one window per distinct window key |
| EdaUtils.Increase | Energy_Consumption/EDA/utils/ng_utes.py:53-55 | the clamped difference: the increase when the counter grew and 0 when it fell, never negative |
| EdaUtils.Diff | Energy_Consumption/EDA/utils/ng_utes.py:49-56 | same length as the input, element 0 missing, element i the clamped increase from i-1; `IndexError` on an empty input |
| EdaUtils.TotalIncreaseBound | Energy_Consumption/EDA/utils/ng_utes.py:49-56 | the summed differences are at least the net change, and equal it exactly when the counter never falls |
| EdaUtils.ReduceKeys | Energy_Consumption/EDA/utils/ng_utes.py:59-67 | the result has each key once |
| EdaUtils.ReduceKeysValue | Energy_Consumption/EDA/utils/ng_utes.py:59-67 | a key is in the result exactly when some input has it, and its value is `fn` folded from the default over that key's values in input order |
| EdaUtils.ReduceKeysAsWritten | Energy_Consumption/EDA/utils/ng_utes.py:59-67 | `defaultdict(type(default_type))`: an instance as `default_type` gives the fold from its type's zero; a type object such as `int` raises `TypeError` exactly when some dict has a key |
| EdaUtils.ReduceKeysTestRaises | Energy_Consumption/EDA/utils/ng_utes.py:221-223 | the test's call with `default_type=int` raises `TypeError` |
| EdaUtils.ReduceKeysSumExample | Energy_Consumption/EDA/utils/ng_utes.py:221-223 | with an int instance as `default_type`, `[{'a':1},{'a':1,'b':3}]` reduces to `{'a':2,'b':3}` |
| EdaUtils.FillNa | Energy_Consumption/EDA/utils/ng_utes.py:32-36 | same length; missing elements become v and the others are unchanged |
| EdaUtils.FillNaIdempotent | Energy_Consumption/EDA/utils/ng_utes.py:32-36 | filling a filled list changes nothing |
| EdaUtils.ExtractDurDisp | Energy_Consumption/EDA/utils/ng_utes.py:112-113 | keeps exactly the `dispatchCount` and `duration` entries |
| EdaUtils.ExtractDurDispIdempotent | Energy_Consumption/EDA/utils/ng_utes.py:112-113 | extracting twice is extracting once |
| EdaUtils.ChildrenSumValue | Energy_Consumption/EDA/utils/ng_utes.py:126-129 | a figure in the children's sum is the sum of that figure over the children that have it |
| EdaUtils.ChildrenSumNone | Energy_Consumption/EDA/utils/ng_utes.py:126-129 | with no children, the default of two NaN figures |
| EdaUtils.ExtractCtrChildrenSum | Energy_Consumption/EDA/utils/ng_utes.py:123-132 | one entry per tab with its children summed; `KeyError` exactly when some tab has no children list |
| EdaUtils.RnHobo2 | Energy_Consumption/EDA/utils/ng_utes.py:155-158 | a name ending in 'yy' loses one 'y'; any other name becomes `capitalize` of the name with every '/' replaced by '_', so it keeps its length, has no '/', no lower-case first letter and no upper-case letter after it |
| EdaUtils.RnHobo2CaseOnly | Energy_Consumption/EDA/utils/ng_utes.py:155-158 | outside the 'yy' case the rename is a fixed point of `capitalize` and differs from the '/'-replaced name only in letter case |
| EdaUtils.ConcatSimultActs | Energy_Consumption/EDA/utils/ng_utes.py:180-184 | the result starts with the first action, ends with the last, and is as long as the actions and a 3-character separator between each pair |
| EdaUtils.ConcatSimultActsIsJoin | Energy_Consumption/EDA/utils/ng_utes.py:180-184 | a lone action is returned as it is, and several are joined with ' & ' |
| EdaUtils.MatchSiteAbbrev | Energy_Consumption/EDA/utils/ng_utes.py:187-197 | the first pattern contained decides, in the order 'addons.mozilla.org' (AMO), 'mozilla.org' (Moz), 'Fortnite', 'twitch.tv'; a site containing none is returned as it is |
| EdaUtils.MatchSiteAbbrevIdempotent | Energy_Consumption/EDA/utils/ng_utes.py:187-197 | abbreviating an abbreviation changes nothing |
| EdaPatterns.LblFindAll | Energy_Consumption/EDA/utils/ng_utes.py:140-145 | every label found is the group of an "LBL: …)" match in the column name |
| EdaPatterns.LblFindAllEmpty | Energy_Consumption/EDA/utils/ng_utes.py:140-145 | no label is found exactly when the pattern matches nowhere |
| EdaPatterns.LgrFindAll | Energy_Consumption/EDA/utils/ng_utes.py:141-149 | every logger name found is a non-empty text before " (LGR S/N" |
| EdaPatterns.LgrFindAllEmpty | Energy_Consumption/EDA/utils/ng_utes.py:141-149 | no logger name is found exactly when that pattern matches nowhere |
| EdaPatterns.RnHobo1 | Energy_Consumption/EDA/utils/ng_utes.py:138-152 | the single label if there is one, else exactly the single logger name found, else 'Dt' for a 'Date Time' prefix, else the input; more than one match raises `ValueError` |
| EdaPatterns.RnHoboDateColumn | Energy_Consumption/EDA/utils/ng_utes.py:150-174 | a 'Date Time' column matching neither pattern is renamed 'Dt' by `rn_hobo1` and by the composed rename |
| EdaPatterns.RnHobo1Plain | Energy_Consumption/EDA/utils/ng_utes.py:138-152 | a name that matches no pattern and does not start with 'Date Time' is returned unchanged |
| EdaPatterns.RnHobo | Energy_Consumption/EDA/utils/ng_utes.py:174 | the column rename is `rn_hobo2` after `rn_hobo1`, failing exactly when `rn_hobo1` does |
| EdaPatterns.NavFindAllSound | Energy_Consumption/EDA/utils/ng_utes.py:201-202 | every navigation target found is non-empty and is the group of a `self.client.navigate('…')` match |
| EdaPatterns.NavFindAllEmpty | Energy_Consumption/EDA/utils/ng_utes.py:201-203 | no navigation target is found exactly when the navigation pattern matches nowhere |
| EdaPatterns.AbbrevAction | Energy_Consumption/EDA/utils/ng_utes.py:200-214 | one navigation gives '-> ' and the abbreviation of the action, 'self.client' is shortened to 'sc' and 'time.sleep' to 'slp' with the remainder kept; two navigations raise `ValueError` |
| EdaPatterns.AbbrevActionMarkers | Energy_Consumption/EDA/utils/ng_utes.py:200-214 | without a navigation, 'Experiment: Starting 1…' becomes 'Start', 'Experiment: Ending…' becomes 'End', and an action with none of the four prefixes is returned as it is |
| EdaPatterns.AbbrevClientCall | Energy_Consumption/EDA/utils/ng_utes.py:205-206 | 'self.client…' without a navigation becomes 'sc' followed by the remainder |
| CrfBootstrap.SumPings | notebooks/Users/cdowhygelund@mozilla.com/crf_demo_data_reduction.py:97-103 | each aggregated bin is the sum of that bin over the client's pings, its keys are the bins seen, and one malformed ping gives an empty histogram |
| CrfBootstrap.BinTotalSwap | notebooks/Users/cdowhygelund@mozilla.com/crf_demo_data_reduction.py:97-103 | the per-bin total does not depend on the order of the pings |
| CrfBootstrap.ApplyEstimator | notebooks/Users/cdowhygelund@mozilla.com/crf_demo_data_reduction.py:88-89 | keys unchanged, every count one more, so non-negative counts become at least 1 |
| CrfBootstrap.EstimatorInvertible | notebooks/Users/cdowhygelund@mozilla.com/crf_demo_data_reduction.py:88-89 | taking one from every count gives the original histogram back |
| CrfBootstrap.WeightHist | notebooks/Users/cdowhygelund@mozilla.com/crf_demo_data_reduction.py:149-150 | keys unchanged, every count multiplied by the weight |
| CrfBootstrap.WeightHistCompose | notebooks/Users/cdowhygelund@mozilla.com/crf_demo_data_reduction.py:149-150 | weighting by v after w is weighting by v*w, and weight 1 changes nothing (`WeightHistUnit`) |
| CrfBootstrap.WeightDistributes | notebooks/Users/cdowhygelund@mozilla.com/crf_demo_data_reduction.py:149-166 | weighting distributes over histogram merging |
| CrfBootstrap.SumHist | notebooks/Users/cdowhygelund@mozilla.com/crf_demo_data_reduction.py:161-166 | keys are the union of both sides', and each count is the sum of both sides' counts, missing counting as 0 |
| CrfBootstrap.SumHistCommutes | notebooks/Users/cdowhygelund@mozilla.com/crf_demo_data_reduction.py:161-166 | merging a probe's histograms is commutative |
| CrfBootstrap.AddHistsAssociates | notebooks/Users/cdowhygelund@mozilla.com/crf_demo_data_reduction.py:161-166 | merging histograms is associative, with the empty histogram as identity (`AddHistsEmpty`) |
| CrfBootstrap.WeightHists | notebooks/Users/cdowhygelund@mozilla.com/crf_demo_data_reduction.py:138-147 | one record keyed (i, build) for exactly the replicates with a positive weight, in replicate order, with n the weight and every probe's histogram weighted by it; a missing probe raises `AttributeError` once a replicate is drawn |
| CrfBootstrap.Replicates | notebooks/Users/cdowhygelund@mozilla.com/crf_demo_data_reduction.py:141-147 | the generator yields, in replicate order, exactly one record for each replicate with a positive weight, each the client's histograms weighted by it |
| CrfBootstrap.Weighted | notebooks/Users/cdowhygelund@mozilla.com/crf_demo_data_reduction.py:143-146 | a replicate's record has n equal to the weight and every probe's histogram weighted by it |
| CrfBootstrap.SumHists | notebooks/Users/cdowhygelund@mozilla.com/crf_demo_data_reduction.py:152-159 | n is the sum of both sides' n, each defaulting to 0, and every probe's histograms are merged |
| CrfBootstrap.SumHistsCommutes | notebooks/Users/cdowhygelund@mozilla.com/crf_demo_data_reduction.py:152-159 | `sum_hists` is commutative |
| CrfBootstrap.SumHistsAssociates | notebooks/Users/cdowhygelund@mozilla.com/crf_demo_data_reduction.py:152-159 | `sum_hists` is associative, so `reduceByKey` may combine in any grouping |
| CrfBootstrap.Combine | notebooks/Users/cdowhygelund@mozilla.com/crf_demo_data_reduction.py:178 | a key with one record keeps it; merging several gives a record with n and a histogram for every probe |
| CrfBootstrap.CombineWeight | notebooks/Users/cdowhygelund@mozilla.com/crf_demo_data_reduction.py:178 | the combined records of one key have n equal to the sum of the weights |
| CrfBootstrap.CombineWeightedBins | notebooks/Users/cdowhygelund@mozilla.com/crf_demo_data_reduction.py:178 | each combined bin is the weighted sum of the clients' bins |
| CrfBootstrap.Comps | notebooks/Users/cdowhygelund@mozilla.com/crf_demo_data_reduction.py:198-206 | one entry per build; build i is test in comparison k exactly when k == i and it is not the last build, and control exactly when k == i-1 |
| CrfBootstrap.SetComp | notebooks/Users/cdowhygelund@mozilla.com/crf_demo_data_reduction.py:214-218 | one record per comparison the build takes part in, keyed (comparison, replicate), with its role; `KeyError` for a build outside the map |
| CrfBootstrap.SetCompPairs | notebooks/Users/cdowhygelund@mozilla.com/crf_demo_data_reduction.py:194-218 | comparison k receives exactly build k as test and build k+1 as control |
| CrfBootstrap.CalcRelds | notebooks/Users/cdowhygelund@mozilla.com/crf_demo_data_reduction.py:220-227 | the assertion fails exactly when the two sides have the same role; otherwise the control and test histograms and the test build |
| CrfBootstrap.CalcReldsSymmetric | notebooks/Users/cdowhygelund@mozilla.com/crf_demo_data_reduction.py:220-227 | the order in which the two sides arrive does not matter |
| CrfBootstrap.ComparisonReport | notebooks/Users/cdowhygelund@mozilla.com/crf_demo_data_reduction.py:194-227 | each comparison reports the newer build k against build k+1 as control |

## Left out

- Sockets, time-outs, the UDP broadcast and receive loop of `Discover.discover`, and JSON encoding and decoding in `query` are not modelled. The reply bytes arrive as a sequence of chunks, and the device transport is a function parameter.
- Logging, warnings and `__repr__` in `tp100.py` are left out. They have no effect on results.
- Device properties outside the core are left out: alias, icon, time, timezone, hw_info, rssi, reboot, `on_since` (wall-clock arithmetic), `state_information`. The commented-out SmartStrip block is left out too.
- `psutil.sensors_battery()` and `time.sleep` in the plug controller become the sequence of readings the loop polls.
- PlugController.Controller: a loop that never sees a reading at or above the high threshold is a run still charging when the readings end. The source would poll for ever.
- PlugController.Controller: `psutil.sensors_battery()` returning `None` on a machine without a battery, and `_plug` being `None` when discovery finds no plug, both raise `AttributeError` in the source. The model takes a battery reading and a plug as given.
- The experiment drivers, threads, pollers, power-tool wrappers and file I/O are left out. They launch processes and talk to devices.
- Counter values in the JavaScript collectors are unbounded integers. The model does not reproduce JavaScript's double precision, under which the max-uint64 sentinel compares equal to nearby values.
- Reading files with `pd.read_json`, `csv.reader`, `read_csv` and `parse_hobo`, and timestamp parsing with `TIMESTAMP_FMT`, are left out. Records arrive already parsed, with integer microsecond timestamps.
- TabReduction.ParsePerf: `ffill(limit=1).interpolate().dropna()` is not modelled. The contract states the resampling index, but not the interpolated values on it, which are floating point.
- Timeline.SortBy: a stable insertion sort. pandas' default sort is not stable, so the order of rows with equal timestamps may differ. The contract states sortedness and permutation only.
- ExperimentReduction.InnerJoin: rows come out in counter-row order, each with all its logger matches. pandas' row order for an inner join is not modelled. The contracts state the joined rows and timestamps as sets.
- ExperimentReduction.AlignHobo: the logger's button-down column is a boolean. The source reads it as "not NaN".
- Only the six data columns are joined, as the source selects them. Their names and types are not modelled.
- EdaUtils.Diff: a missing first element stands for pandas' NaN. Floating-point counters are not modelled.
- EdaUtils.Diff: `numba` compilation of `diff` is left out, and with it two behaviours of the compiled code. On an empty array, `r[0] = np.nan` is an unchecked write rather than the `IndexError` the model returns. An integer array cannot hold the NaN that the model's missing first element stands for.
- `join_json_cols`, `get_oom_names`, `to_array`, `non_zero_cols`, `cleanup_counter_df`, `tix`, `extract_ctr_main`, `hobo_process` and `abbrev_actions` in `ng_utes.py` are left out. They are pandas and plotting plumbing over the modelled helpers.
- EdaPatterns.AbbrevAction: the navigation branch abbreviates the whole action string, as the source does, not the captured site.
- EdaPatterns.LblFindAll and EdaPatterns.LgrFindAll: the contracts state soundness (every result is a match) and emptiness exactly when nothing matches. They do not state the full list of non-overlapping matches.
- EdaPatterns.NavFindAll: like LblFindAll, only soundness (EdaPatterns.NavFindAllSound) and emptiness exactly when nothing matches (EdaPatterns.NavFindAllEmpty) are stated. The full list of non-overlapping matches is not.
- ExperimentReduction.ParseExp: an empty experiment log is sorted as an empty sequence. In the source, the data frame of an empty log has no `timestamp` column, so `sort_values` raises `KeyError`. The merge that follows then fails with `IndexError` instead.
- LegacyReduction.ParseExp: the same as ExperimentReduction.ParseExp, for the older CSV reader.
- EdaUtils.ReduceKeys: `fn` is any function of the value type, and the zero is a parameter. `ReduceKeysAsWritten` models how `default_type` yields that zero.
- EdaUtils.RnHobo2: case mapping is ASCII only. Python 3's `str.capitalize` also maps non-ASCII letters, and special cases such as title-case digraphs.
- SmartDevice.Mac: `str` of a list or dict value, which Python renders with `repr`, is a `TypeError` in the model. `str` of a non-integer number is not modelled, because numbers are integers.
- CounterSnapshot.Snapshot: the newer collector returns `{tabs, date: Cu.now()}`. The wrapper and the clock reading are dropped, and `TabReduction` takes the bare per-tab table.
- Grouping.GroupFoldKeys: the order of the tabs is not stated. The association list happens to follow first appearance, but JavaScript lists integer-like keys first, in ascending order.
- `unit_density`, `norm_hists`, `calc_relds_stat` and the quantile UDF in the notebook are left out. They are floating point.
- Poisson sampling of the bootstrap weights is left out. The weights are a parameter.
- `get_ws` and `agg_client_hists` are left out; they are Spark plumbing around the modelled summation.
- Spark's `reduceByKey` scheduling is left out. The commutativity and associativity lemmas make the order of combination irrelevant in exact arithmetic only.
- CrfBootstrap.SumHists: the replicate values are doubles in the notebook, since each client's histogram passes through `unit_density` and the schema maps integers to doubles. The model uses exact integers, so its commutativity and associativity laws do not carry over to floating-point sums, whose result can depend on the order `reduceByKey` picks.
- The sort of builds newest first is not modelled. The comparison map is proved for any list of distinct builds, in the order given.
- CrfBootstrap.SumPings: a ping whose histogram is not a list of (bin, count) pairs is `None`. Python's exception handler around the summation is modelled as that case.

## Findings

| source | as written | input that shows it | evidently intended | confidence | as-written member | corrected member |
|---|---|---|---|---|---|---|
| energy_consumption/reduction/experiment_reduction.py:116-119 | `tag not in results_df.action` tests the Series index (timestamps), so the guard always holds and the nearest row is relabelled even when the as-of labels already carry the tag | events (0, "a"), (6, sync); counter rows at 5 and 10: the row at 10 is already labelled sync, and the row at 5 is relabelled too | place the tag only when no row already carries it | not executed | ExperimentReduction.MergeCountersAsWritten (shown by ExperimentReduction.MergeCountersRelabelsTaggedTable; through `merge`, ExperimentReduction.MergeJoinsBothRows) | ExperimentReduction.MergeCounters (in the pipeline, ExperimentReduction.MergeCorrected, shown by ExperimentReduction.MergeCorrectedJoinsOneRow) |
| energy_consumption/tp100/experiment_tp100.py:11-26 | the default thresholds are (0.1, 0.9) while `psutil` reports the battery in percent (0 to 100), so the plug is switched on only below 0.1 percent | no `battery_thresh`, battery at 5 percent, plug off: the plug stays off | thresholds of 10 and 90 percent | not executed | PlugController.ConfiguredThresholdsAsWritten (shown by PlugController.DefaultThresholdsIgnoreLowBattery) | PlugController.ConfiguredThresholds (proved by PlugController.DefaultThresholdsChargeLowBattery) |
| Energy_Consumption/EDA/utils/ng_utes.py:221-223 | `reduce_keys(op.add, ds, default_type=int)`: `reduce_keys` builds `defaultdict(type(default_type))`, which for the type object `int` is `defaultdict(type)`, so the first missing key calls `type()` | `[{'a': 1}, {'a': 1, 'b': 3}]`: the lookup of 'a' raises `TypeError` | `default_type=0`, so the factory is `int` and the sums are `{'a': 2, 'b': 3}` | not executed | EdaUtils.ReduceKeysAsWritten (shown by EdaUtils.ReduceKeysTestRaises) | EdaUtils.ReduceKeysSumExample |
