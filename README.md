# AI IDS backend: alert pipeline and column-type inference, modelled in Dafny

This project models two parts of an intrusion-detection service.

**Alert pipeline.** The FastAPI backend classifies feature records with a
trained model. It keeps the malicious ones in a bounded in-memory buffer,
`RECENT_ALERTS`, which holds at most 200 alerts and evicts the oldest first.
It pushes each malicious alert to every websocket subscriber listed by a
`ConnectionManager`. A subscriber whose send fails is disconnected. An
optional MQTT bridge feeds decoded JSON payloads into the same `ingest`
path. The broker URL for that bridge is parsed at start-up.

**Column-type inference.** At training time, `infer_column_types` sorts a
frame's columns into three lists. Numeric columns form the first list.
Object and category columns go either to the categorical list or to the
dropped list. A column is dropped when it has too many distinct values
overall, or too many per row, as identifiers do. Columns of other dtypes,
such as bool and datetime, appear in no list.

Modules, one file each:

- `wrappers.dfy` (`Wrappers`): `Option`.
- `pylist.dfy` (`PyList`): Python's `list.remove` and the open slice `s[start:]`.
- `pystr.dfy` (`PyStr`): `str.strip`, `str.split`, `int()` in base 10, and `str(n)`.
- `alerts.dfy` (`Alerts`): JSON values, `Alert`, the verdict rule of
  `predict_from_features`, the buffer step and the `recent_alerts` slice.
- `connections.dfy` (`Connections`): the `ConnectionManager` class and its
  specification functions.
- `mqtt.dfy` (`Mqtt`): which decoded payloads are ingested, and the broker URL decision.
- `backend.dfy` (`Backend`): the shared state as the class `App`, with
  `Ingest` and `HandleMqttPayload`, and the pure step `IngestStep` that
  specifies them.
- `preprocess.dfy` (`Preprocess`): `InferColumnTypes` and its lemmas.

Outside inputs are passed in as parameters:

- the classifier's behaviour on a record, as a `ClassifierOutcome`;
- the outcome of each websocket send, one boolean per listed handle, in list order;
- the clock readings used for the timestamp and the id;
- the result of UTF-8 and JSON decoding;
- the environment variables;
- for each column, its dtype and its number of distinct non-null values.

Each send is recorded in a `sent` log on the manager. This log is the
observable effect of `send_json`.

Facts about the source:

- `recent_alerts` slices with `[-limit:]` and does not clamp its limit
  (see Findings). Its default limit is 50.
- The alert id is `str(int(datetime.utcnow().timestamp() * 1000))`
  (backend/app/main.py:149). `utcnow()` gives a naive time, and
  `timestamp()` reads a naive time as local time. On a host whose clock
  is not set to UTC, the id is the epoch in milliseconds shifted by the
  UTC offset. The id is a parameter of the model. It is not unique, so no
  uniqueness is claimed.
- `connect` adds the handle before the hello message is sent.
- `broadcast` waits for each send in turn, with no per-send time bound.
- The host is trimmed with `str.strip()`, which removes every character
  `str.isspace()` accepts. The port goes through `int()`, which skips a
  slightly smaller set: U+001C..U+001F count as whitespace for `strip()`
  but not for `int()`. The model keeps the two sets apart (`IsSpace` and
  `IsIntSpace`).

## Model

| member | source | states |
|---|---|---|
| `PyList.FirstIndex` | backend/app/main.py:58 | the position `list.remove(x)` deletes from: it holds `x` and no earlier position does |
| `PyList.RemoveCounts` | backend/app/main.py:58 | removal shortens the list by one and takes exactly one copy of `x` out of its multiset |
| `PyList.SliceFrom` | backend/app/main.py:165 | `s[start:]` is always a tail of `s`; its length follows Python's clamping for negative and out-of-range starts |
| `Alerts.PredictFromFeatures` | backend/app/main.py:89-105 | there is a score exactly when the classifier gave a probability, and then malicious iff score >= 0.5; without a score, malicious iff the predicted label is 1; no model or a raised error gives (false, None) |
| `Alerts.Admit` | backend/app/main.py:155-158 | the new alert ends the buffer; under the limit nothing is evicted; at the limit exactly the oldest entry goes; a buffer within 200 stays within 200; all-malicious is kept |
| `Alerts.AdmitAllKeepsNewest` | backend/app/main.py:155-158 | from a buffer within the limit, any sequence of stores leaves exactly the newest 200 alerts seen, oldest first (FIFO) |
| `Alerts.RecentAlerts` | backend/app/main.py:165 | `[-limit:]`: a tail of the buffer; 1 <= limit <= size gives `limit` alerts; limit >= size gives all; limit 0 gives all; a negative limit drops that many oldest alerts |
| `Alerts.RecentAlertsDefault` | backend/app/main.py:163-165 | without a `limit`, the newest 50 alerts are returned, oldest first, or the whole buffer when it holds fewer |
| `Alerts.RecentAlertsZeroLimit` | backend/app/main.py:165 | on a two-alert buffer, limit 0 returns both alerts and limit -1 returns the newest one |
| `Alerts.RecentAlertsClamped` | backend/app/main.py:165 | corrected query: exactly min(max(limit, 0), size) newest alerts, oldest first |
| `Alerts.RecentAlertsAgreeOnPositive` | backend/app/main.py:165 | the corrected query equals the source's slice for every limit >= 1 |
| `Connections.DisconnectedCounts` | backend/app/main.py:56-58 | `disconnect` leaves an unlisted handle's list unchanged; otherwise it removes one copy and the list shrinks by one |
| `Connections.DisconnectTwice` | backend/app/main.py:56-58 | a second `disconnect` of the same handle is a no-op if and only if the handle was listed at most once |
| `Connections.SurvivorsAndFailed` | backend/app/main.py:60-68 | the survivors and the `dead` list together are exactly the listed handles (as multisets) |
| `Connections.OutcomeDecides` | backend/app/main.py:60-68 | a handle whose send succeeded is among the survivors; one whose send failed is in `dead` |
| `Connections.FailedDoNotSurvive` | backend/app/main.py:60-68 | with no handle listed twice, no failed handle is a survivor |
| `Connections.AttemptsInOrder` | backend/app/main.py:62-64 | one broadcast makes one send per listed handle, in list order, each with its own outcome; a failure does not stop later sends |
| `Connections.DisconnectAllShrinks` | backend/app/main.py:67-68 | disconnecting the dead handles only removes handles |
| `Connections.DisconnectFailedLeavesSurvivors` | backend/app/main.py:60-68 | with no handle listed twice, disconnecting the dead handles one by one leaves exactly the survivors, in their original order |
| `Connections.ConnectionManager.constructor` | backend/app/main.py:49-50 | a new manager has no handles and has sent nothing |
| `Connections.ConnectionManager.Connect` | backend/app/main.py:52-54 | the handle is appended at the end; existing handles keep their order; nothing is sent |
| `Connections.ConnectionManager.Disconnect` | backend/app/main.py:56-58 | the list becomes `Disconnected(old list, ws)`; nothing is sent |
| `Connections.ConnectionManager.Broadcast` | backend/app/main.py:60-68 | the log grows by one send per old handle, in order; the list becomes the old list with each failed handle disconnected in turn; with no duplicates this is exactly the survivors in order |
| `Mqtt.PayloadFeatures` | backend/app/main.py:193-199 | a payload yields a feature record exactly when it decoded to a JSON object, and the record is that object's members |
| `Mqtt.StartMqtt` | backend/app/main.py:204-225 | nothing starts iff the URL is unset or empty, the client is missing, or the `tcp://` prefix is absent; otherwise the outcome is decided by the text after the prefix |
| `Mqtt.StartMqttTcp` | backend/app/main.py:218-219 | with the client installed, `tcp://` followed by any text gives that text's address decision |
| `Mqtt.BrokerAddress` | backend/app/main.py:219-222 | start-up always does something once the prefix is there; any number of `:` other than one fails the unpacking, reporting the part count; a connection needs exactly one `:` and gets a stripped host without `:` |
| `Mqtt.BrokerAddressParts` | backend/app/main.py:219-222 | for `a:b` with one `:`, the host is `a.strip()` and the port is `int(b)`; when `int(b)` fails, start-up fails on `b` |
| `Mqtt.BrokerAddressRoundTrip` | backend/app/main.py:219-222 | `host:port` with a stripped host without `:` and a decimal port of at most 4300 digits is read back as exactly that host and port |
| `Mqtt.StartMqttRoundTrip` | backend/app/main.py:204-225 | `tcp://host:port` with a stripped host without `:` and a decimal port of at most 4300 digits connects to exactly that host and port |
| `PyStr.Strip` | backend/app/main.py:221 | the result has no Python whitespace at either end |
| `PyStr.StripIdempotent` | backend/app/main.py:221 | stripping twice is stripping once |
| `PyStr.Split` | backend/app/main.py:220 | `split(sep)` yields one more part than there are separators, and no part contains the separator |
| `PyStr.JoinSplit` | backend/app/main.py:220 | joining the parts with the separator gives back the original string |
| `PyStr.ParseInt` | backend/app/main.py:222 | `int()` succeeds only on a string that is non-blank once its whitespace is skipped; a negative value needs a leading `-`; more than 4300 digits raise |
| `PyStr.ParseIntPadded` | backend/app/main.py:222 | whitespace, an optional `+` or `-`, at least one decimal digit, then whitespace: `int()` returns the signed value of the digits when there are at most 4300 of them, and raises otherwise |
| `PyStr.ParseIntAccepted` | backend/app/main.py:222 | conversely, every text `int()` accepts has exactly that shape, and at most 4300 digits, and its value is the signed value of its digits |
| `PyStr.SeparatorIsNotIntSpace` | backend/app/main.py:221-222 | U+001C is removed by `strip()` but makes `int()` fail: `int("\x1c5")` raises |
| `PyStr.ParseIntDigits` | backend/app/main.py:222 | bare decimal digits are read as their value, up to 4300 of them; more raise |
| `PyStr.ParseIntShowNat` | backend/app/main.py:222 | `int(str(n)) == n` for every natural number of at most 4300 digits; a longer spelling makes `int()` raise |
| `Backend.IngestStep` | backend/app/main.py:144-160 | the reply is `{ingested: true, malicious, score, timestamp}` from the verdict; a benign verdict changes nothing; a malicious one stores the alert, then sends it to every old handle and disconnects the failed ones |
| `Backend.IngestKeepsBuffer` | backend/app/main.py:155-159 | `ingest` keeps the buffer within 200 and all-malicious; every send it makes carries a malicious alert that is already the newest in the buffer |
| `Backend.App.constructor` | backend/app/main.py:71-72 | the backend starts with an empty buffer and a manager with no handles |
| `Backend.App.Ingest` | backend/app/main.py:144-160 | the new state and the reply are those of `IngestStep`; the buffer invariant is preserved |
| `Backend.App.HandleMqttPayload` | backend/app/main.py:193-201 | a decode failure or a non-object leaves the state untouched and is reported as such; an object is ingested exactly as `/ingest` would do |
| `Preprocess.RowCount` | ml/utils/preprocess.py:35 | `max(1, len(df))`: the frame length when that is positive, and exactly 1 for an empty frame |
| `Preprocess.ShouldDropByProduct` | ml/utils/preprocess.py:45-47 | the drop test `nunique > threshold or nunique / n_rows > ratio` is equivalent to `nunique > threshold or nunique > ratio * n_rows` |
| `Preprocess.EmptyColumnKept` | ml/utils/preprocess.py:45-50 | a column with no non-null values is never dropped when threshold and ratio are non-negative |
| `Preprocess.EmptyColumnKeptByDefault` | ml/utils/preprocess.py:28-50 | under the defaults 1000 and 0.9, a column with no non-null values is kept |
| `Preprocess.IdColumnDroppedByDefault` | ml/utils/preprocess.py:28-50 | under the defaults, a column with a distinct value in every row (an identifier) is dropped |
| `Preprocess.NumericColumns` | ml/utils/preprocess.py:36 | only numeric columns are selected |
| `Preprocess.ObjectColumns` | ml/utils/preprocess.py:39 | only object and category columns are candidates |
| `Preprocess.InferColumnTypes` | ml/utils/preprocess.py:28-52 | the three returned lists are the labels of the numeric, kept and dropped columns, each in frame order |
| `Preprocess.SelectionOfObjectColumns` | ml/utils/preprocess.py:39-50 | deciding over the object-like candidates gives the same kept and dropped lists as deciding over all columns |
| `Preprocess.Placement` | ml/utils/preprocess.py:36-50 | a column is numeric-listed iff numeric; categorical iff object-like and passing the drop test; dropped iff object-like and failing it; so other dtypes appear in no list |
| `Preprocess.ObjectColumnsPartitioned` | ml/utils/preprocess.py:44-50 | each object-like column goes to exactly one of the categorical and dropped lists |
| `Preprocess.SelectionsKeepOrder` | ml/utils/preprocess.py:36-50 | each of the three lists is a subsequence of the frame's columns |
| `Preprocess.ReturnedListsDisjoint` | ml/utils/preprocess.py:36-50 | with distinct labels, no label is in two of the three returned lists |

## Left out

- Websocket transport: `accept`, the hello message and the receive loop (backend/app/main.py:168-180). `Connect` is only the append.
- Concurrency: the `await` points in `broadcast` and the `asyncio.run` call on the MQTT thread. Every operation is atomic and sequential.
- The classifier itself: `predict_proba` and `predict`. It is the oracle `ClassifierOutcome`. Its `Raised` case covers the exceptions caught by the `try` (backend/app/main.py:95-105).
- Alerts.PredictFromFeatures: does not model a failure of `pd.DataFrame([features])` (backend/app/main.py:93). That call sits before the `try`, so its exception escapes `predict_from_features`. `/ingest` then fails with a server error, and the MQTT handler swallows the exception (backend/app/main.py:200-201). In the model, building the frame never fails.
- Floating point: scores and the ratio test are exact reals, so NaN and rounding are not modelled.
- Clock readings: they are parameters. The id's dependence on the host's UTC offset is therefore not modelled. The id is not unique, and no uniqueness is claimed.
- UTF-8 and JSON decoding: these are the input `Option<Json>`.
- PyStr.ParseInt: it accepts whitespace, an optional sign and ASCII digits only. Python's `int()` also accepts `_` between digits and non-ASCII decimal digits, and the model rejects both. The digit limit is fixed at the default of `sys.get_int_max_str_digits()`, 4300; a limit changed at run time is not modelled.
- PyStr.ShowNat: Python's `str(n)` also raises past 4300 digits, and `ShowNat` does not. It serves only to state the round trips, whose numbers are bounded to 4300 digits.
- Port range: a port outside 0-65535 is not rejected, because that check happens inside the MQTT client.
- The MQTT client lifecycle: `on_connect`, subscribing, the 60-second keepalive and `loop_start`.
- The MQTT handler's catch of exceptions raised inside `ingest`: in the model `ingest` cannot fail, so that path is empty.
- `/predict`, `/health`, the landing page, the favicon, CORS and start-up model loading: routing and I/O around the modelled rules.
- `model_dump` and JSON serialisation of alerts: broadcasts and replies carry the datatype values.
- `build_preprocessor` and `FeatureSchema.to_json`: thin wrappers over library calls.
- `ml/train.py` and `scripts/replay_to_http.py`: file I/O, pandas behaviour and HTTP replay, not part of this model.
- pandas internals: the distinct count `nunique(dropna=True)` is given per column.
- Preprocess.ReturnedListsDisjoint: assumes that all column labels are distinct. When a label is repeated only among non-object columns, the source returns normally, and the lemma promises nothing about that frame. The case where an object-like label is shared is covered in the next line.
- Preprocess.InferColumnTypes: does not model the ValueError the source raises when an object-like column's label also labels another column, of any dtype (ml/utils/preprocess.py:45-47). Then `df[col]` is a frame, `nunique` is a series and the `or` in the `if` raises. The model returns three lists instead. A label repeated only among non-object columns never reaches `df[col]`, and there the model and the source agree. The training script builds its frame with `read_csv` and `concat`, which give distinct labels.
- Preprocess.EmptyColumnKept: holds only for a non-negative threshold and ratio. With a negative threshold, an empty column is dropped.

## Findings

| source | as written | input that shows it | evidently intended | confidence | as-written member | corrected member |
|---|---|---|---|---|---|---|
| backend/app/main.py:165 | `RECENT_ALERTS[-limit:]`: `-0` is `0`, so limit 0 returns every alert, and a negative limit drops the oldest alerts instead of returning none | buffer `[a, b]`: `limit=0` returns `[a, b]`, `limit=-1` returns `[b]` | at most `max(limit, 0)` newest alerts, none for a limit of 0 or below | medium, not executed | `Alerts.RecentAlertsZeroLimit` | `Alerts.RecentAlertsClamped` |
