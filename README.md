# NEXUS PRO startup and chat gateway, modelled in Dafny

This project models the core of `nexus_pro_mac.py`, a macOS launcher for a local Ollama backend.
The launcher has two parts:

- **Startup readiness sequence.** `main` checks that port 7100 is free. It then makes sure Ollama is installed and running (`ensure_ollama_installed`, `ensure_ollama_running`) and that the model `qwen2.5-coder:7b` is registered (`ensure_model_ready`). Only then does it start the gateway server. The first failing stage exits.
- **Streaming chat gateway.** `/api/chat` validates a request, probes the backend, and relays the backend's streamed reply as server-sent events. It reads the temperature from a small SQLite settings table that `init_db` seeds and `dbg` reads.

Every outside observation is an input of the model. This covers: is the backend reachable, is a binary on the search path, a subprocess's exit code, the listed models, whether a file exists, and the backend's reply lines. Every effect is recorded in order as an action in a returned trace. Effects include: running brew, writing a flag file, opening the browser, launching `ollama serve`, running `ollama create`, each health probe, the backend chat call, and starting the server.

Files, one module each:

- `wrappers.dfy`: `Option`.
- `text.dfy`: Python's `str.strip()` and substring predicates.
- `readiness.dfy`: the install, launch, model and `main` stages. `ensure_ollama_running`'s polling loop is the method `EnsureOllamaRunning`, proved equal to the specification function `OllamaRunning`.
- `settings.dfy`: the settings table, as a class over a `map`.
- `event_stream.dfy`: the events' JSON payloads as Python's `json.dumps` writes them (ASCII only) and the `data: <payload>\n\n` framing of section 9.2 of the WHATWG HTML Living Standard. It also holds a reader for that format, used to prove that a client recovers every event.
- `relay.dfy`: `stream_ollama`'s line decoding, and the `gen` loop as the method `RelayEvents`, proved equal to `Relayed`.
- `chat.dfy`: the `/api/chat` gate.

Some of the code's behaviour is easy to misread; the model follows the code:

- **The ready flag.** It is written only on the two success paths of `ensure_model_ready`, not when provisioning is first attempted. So a failing `ollama create` runs again at every start while the model is missing (`CreateRetriedAfterFailure`); the flag stops `ollama create` only once it exists (`NoCreateOnceFlagged`).
- **The setup flag.** It is written whenever the brew run returns, but nothing reads it.
- **Health.** Any HTTP response from the tags endpoint counts as healthy. The model's observation is "did the request get a response".
- **Empty text events.** The fragment that carries `done` is relayed as a text event too. When the backend sends `done` on a record of its own, the stream therefore holds an extra empty text event before `done` (`DoneRecordRelayed`).
- **Messages without the log path.** The port-in-use and server-timeout messages do not contain the log path. `fail_and_exit` prints the path on a line of its own after every message (`ExitText`).

## Model

| member | source | states |
|---|---|---|
| `Text.Strip` | nexus_pro_mac.py:262 | the stripped message is the infix of the input left after removing Python whitespace at both ends; it is empty exactly when every character is whitespace |
| `Readiness.MessageNamesLog` | nexus_pro_mac.py:131-197 | every failure message of the three stages ends with the line naming the startup log; the install failure also names the installer URL |
| `Readiness.ExitText` | nexus_pro_mac.py:290-294 | what `fail_and_exit` prints is the message, a line break, then the log pointer line ending in a line break: the message is a prefix, the character after it is `\n`, the text ends with the log line, and nothing else lies between them |
| `Readiness.Reason` | nexus_pro_mac.py:131-197 | the diagnostic text of each failure, in the code's wording, including those of `main` at lines 301 and 316; what the texts name is stated by `ReasonNamesDetail` |
| `Readiness.ReasonNamesDetail` | nexus_pro_mac.py:159-190 | the launch and create exception diagnostics end with the exception's text, the missing-Modelfile diagnostic ends with the path, and the already-attempted diagnostic names the model |
| `Readiness.Message` | nexus_pro_mac.py:131-197 | a stage failure's message is its reason then a line giving the log path; `main`'s own failures are the reason alone; `MessageNamesLog` states the log line for every stage failure |
| `Readiness.EnsureOllamaInstalled` | nexus_pro_mac.py:110-136 | succeeds iff the binary is already present, or brew is present, exits 0 and the binary is found afterwards; every failure is `InstallerOpened`; the effects are exactly: nothing when the binary is present, else the brew run if brew is present, the setup flag if that run returned (any exit code), and the installer URL on failure, in that order |
| `Readiness.InstallEffects` | nexus_pro_mac.py:110-136 | brew runs iff the binary is absent and brew is present; the setup flag is written iff the brew run returned; the installer URL is opened iff the stage fails, as its last effect |
| `Readiness.InstallCounts` | nexus_pro_mac.py:110-136 | the install stage runs brew at most once and neither probes nor launches; all its effects belong to the backend stage |
| `Readiness.PollFrom` | nexus_pro_mac.py:161-167 | the polling loop makes at most the remaining number of probes; it succeeds iff some remaining probe is healthy, after exactly the probes up to the first healthy one; otherwise it times out after all of them |
| `Readiness.PollSkip` | nexus_pro_mac.py:161-165 | after unhealthy probes the loop goes on as from the next probe, with those probes counted |
| `Readiness.LocateBinary` | nexus_pro_mac.py:144-151 | a binary already on the path needs nothing; otherwise the install's effects are kept; the binary is located exactly when it was on the path or the install succeeded and the binary then appears; a failed install fails with the install's own reason; a successful install whose binary is still missing fails with `MissingAfterInstall` |
| `Readiness.LocateEffects` | nexus_pro_mac.py:144-151 | locating the binary runs brew at most once, and neither probes nor launches |
| `Readiness.OllamaRunning` | nexus_pro_mac.py:139-167 | a reachable backend succeeds after one probe with no other effect; otherwise, after the entry probe: a locate failure is returned with its own reason and effects; a launch exception is `LaunchRaised` with that exception after the launch; else the outcome and the probe count are those of the polling loop (first healthy probe succeeds, none is `LaunchTimedOut`); overall success iff the binary is located, the launch does not raise and some probe within `retry_seconds` is healthy |
| `Readiness.OllamaRunningEffects` | nexus_pro_mac.py:139-167 | a launch happens iff the backend was not reachable and the binary was located; every effect belongs to the backend stage |
| `Readiness.OllamaRunningBounds` | nexus_pro_mac.py:153-165 | at most one launch, at most one brew run, at most `retry_seconds` probes after the entry probe, and exactly that many on a timeout |
| `Readiness.OllamaRunningFailureNamesLog` | nexus_pro_mac.py:145-167 | every failure of `ensure_ollama_running`, including a launch exception turned into a failure, carries the log pointer |
| `Readiness.InstalledButMissing` | nexus_pro_mac.py:145-151 | an install that reports success while the binary is still missing fails without launching |
| `Readiness.EnsureOllamaRunning` | nexus_pro_mac.py:139-167 | the loop that probes once per round and returns on the first healthy probe has exactly the outcome and effects of `OllamaRunning` |
| `Readiness.EnsureModelReady` | nexus_pro_mac.py:170-197 | a listed model succeeds writing only the ready flag; a missing Modelfile fails naming its path before the flag is looked at; an existing flag fails as already attempted; otherwise create runs and a raised create is `CreateRaised` with the exception, a non-zero exit `CreateFailed`, and exit 0 is success writing the flag iff the model is listed on the re-query, else `NotListedAfterCreate` |
| `Readiness.ModelReadyEffects` | nexus_pro_mac.py:170-197 | `ollama create` runs at most once, iff the model is not listed, the Modelfile exists and the ready flag is absent; the ready flag is written at most once, iff the stage succeeds; every failure is a stage failure, whose message carries the log pointer; every effect belongs to the model stage |
| `Readiness.ModelfilePath` | nexus_pro_mac.py:64-65 | the Modelfile path lies under the resource directory and ends with `/<model name>/Modelfile` |
| `Readiness.CreateRetriedAfterFailure` | nexus_pro_mac.py:184-197 | a run whose create fails leaves no flag, so the next start with the model still missing runs create again |
| `Readiness.NoCreateOnceFlagged` | nexus_pro_mac.py:181-182 | once the ready flag exists, no later start runs create |
| `Readiness.Startup` | nexus_pro_mac.py:297-316 | a busy port exits with no effect; a failing backend stage is the result, with its own reason and effects; a failing model stage exits with its reason after the backend's and the model stage's effects; otherwise the effects are both stages' then the server start, and the result is Ok exactly when the server answers, else the server timeout |
| `Readiness.StartupStages` | nexus_pro_mac.py:297-316 | the startup effects never go back to an earlier stage, and a failing backend stage leaves only backend effects |
| `Readiness.StartupServerStart` | nexus_pro_mac.py:303-312 | the gateway server is started iff the port is free and both readiness stages succeed |
| `Settings.InsertOrIgnore` | nexus_pro_mac.py:214-216 | an `INSERT OR IGNORE` adds the key with its value only if absent and keeps every existing row |
| `Settings.Seed` | nexus_pro_mac.py:207-220 | seeding adds the three keys, keeps existing values, and gives a missing key its default (`''`, `'20'`, `'0.7'`) |
| `Settings.SeedIdempotent` | nexus_pro_mac.py:214-216 | seeding a seeded table changes nothing |
| `Settings.SeedKeepsFullTable` | nexus_pro_mac.py:214-216 | a table that has all three keys is left as it is |
| `Settings.Lookup` | nexus_pro_mac.py:223-225 | the lookup answers the stored value when the key has a row and None otherwise |
| `Settings.SettingsStore.constructor` | nexus_pro_mac.py:207-208 | opening a database file yields its settings rows |
| `Settings.SettingsStore.InsertOrIgnoreRow` | nexus_pro_mac.py:214-216 | one seeding statement updates the table as `InsertOrIgnore` |
| `Settings.SettingsStore.InitDb` | nexus_pro_mac.py:207-220 | `init_db` leaves the table as `Seed` of the old table |
| `Settings.SettingsStore.Get` | nexus_pro_mac.py:223-225 | `dbg` returns the table's `Lookup` of the key: Some(value) iff the key has a row, with the stored value |
| `Settings.FreshStoreDefaults` | nexus_pro_mac.py:214-216 | on a fresh store the temperature is "0.7", the context length "20", and an unknown key has no value |
| `EventStream.EscapeChar` | nexus_pro_mac.py:274-279 | `json.dumps` writes every character of a string as printable ASCII |
| `EventStream.Payload` | nexus_pro_mac.py:274-279 | the `{text}`, `{done: true}` and `{error}` payloads are printable ASCII |
| `EventStream.UnescapeRoundTrip` | nexus_pro_mac.py:274-279 | a JSON-escaped string decodes back to the string |
| `EventStream.PayloadRoundTrip` | nexus_pro_mac.py:274-279 | every payload decodes back to its event |
| `EventStream.DataLine` | nexus_pro_mac.py:274-279 | an event's `data:` line contains no line feed or carriage return, so each frame is exactly one event |
| `EventStream.ReadFrame` | nexus_pro_mac.py:274-279 | an event-stream reader dispatches exactly one event per `data: …\n\n` frame, with the payload as its data |
| `EventStream.StreamRoundTrip` | nexus_pro_mac.py:269-281 | reading a response body and decoding each event's data gives back the events sent, in order, and no others |
| `Relay.Fragments` | nexus_pro_mac.py:236-239 | `stream_ollama` yields at most one fragment per line |
| `Relay.Decode` | nexus_pro_mac.py:239 | a record's text is its content, `""` if absent; its done flag is set iff the record says `true` |
| `Relay.FragmentsAppend` | nexus_pro_mac.py:236-239 | lines without a malformed one are read through: their fragments are followed by those of what comes next |
| `Relay.FragmentsStopAtFault` | nexus_pro_mac.py:236-239 | after a malformed line nothing more is yielded |
| `Relay.FragmentsSkipBlank` | nexus_pro_mac.py:236-237 | a blank line anywhere yields nothing and changes no fragment |
| `Relay.FragmentsEndAtMalformed` | nexus_pro_mac.py:236-238 | a malformed line anywhere ends the fragments: those before it are yielded, nothing from it on |
| `Relay.FragmentsRecord` | nexus_pro_mac.py:236-239 | a record after well-formed lines yields one fragment with its content, `""` if absent, and its done flag, false if absent |
| `Relay.ThroughDone` | nexus_pro_mac.py:272-276 | the fragments consumed are a prefix that ends at the first done fragment, or all of them when none says done |
| `Relay.RelayLines` | nexus_pro_mac.py:269-279 | the events `gen` sends for a reply's lines and its end, read line by line; `RelayMatchesFragments` and `RelayEndsOnce` state what they are |
| `Relay.Relayed` | nexus_pro_mac.py:269-279 | the events `gen` sends for every behaviour of the backend call, including a call refused before any line |
| `Relay.RelayMatchesFragments` | nexus_pro_mac.py:269-279 | the relay is one text event per consumed fragment, in arrival order without coalescing, then one terminal event: done if a fragment said so or the reply ended normally, else the error |
| `Relay.RelayEndsOnce` | nexus_pro_mac.py:269-279 | whatever the backend does, the stream ends with exactly one `done` or `error` event and everything before it is text |
| `Relay.HelloRelay` | nexus_pro_mac.py:272-277 | the fragments "Hel" and "lo", with done on the last one, give the events "Hel", "lo", done |
| `Relay.DoneRecordRelayed` | nexus_pro_mac.py:236-239 | a record without content is relayed as "", one without a done flag does not stop the relay, and lines after the done record are never read |
| `Relay.RelayEvents` | nexus_pro_mac.py:269-279 | the `gen` loop, with its `break` on done and its exception handler, emits exactly the events of `Relayed` |
| `Chat.TemperatureSetting` | nexus_pro_mac.py:272 | the stored temperature is used iff its row exists and is not empty; otherwise the default 0.7 |
| `Chat.UnavailableError` | nexus_pro_mac.py:267 | the 503 error text ends with the log pointer |
| `Chat.StreamedChat` | nexus_pro_mac.py:269-279 | the temperature is read before the chat call: exactly when the stored temperature does not parse, the stream is one error event and no chat call is made; otherwise one chat call with the message, an empty system prompt and the stored temperature, whose relay is the response; a streamed reply makes no chat call exactly when the stored temperature does not parse |
| `Chat.HandleChat` | nexus_pro_mac.py:259-281 | a whitespace-only or missing message, or a missing model, is a 400 with no backend call; a valid request to an unreachable backend is a 503 naming the log after one probe; otherwise one probe, then either one error event (the temperature does not parse) or a chat call with the stripped message, an empty system prompt and the stored temperature, whose relay is the response; a streamed reply makes no chat call exactly when the stored temperature does not parse |
| `Chat.StreamedReply` | nexus_pro_mac.py:269-281 | a streamed response ends with exactly one terminal event, and a client reading it recovers every event in order |

## Left out

- **Sockets.** `_port_in_use` and `_wait_server` are not modelled. Their answers are the inputs `portInUse` and `serverReachable`. The 25- and 30-second deadlines and the 0.2-second polling are left out.
- **HTTP requests to the backend.** `requests` calls are not modelled: `ollama_ok` is a boolean input per call. `list_models` is an input list; the code turns a failed request into `[]`. Opening the chat call (the POST, `raise_for_status`) is the input `Refused(error)` when it raises.
- **Subprocesses and `_run_logged`.** Only their outcome is modelled: raised, or returned an exit code. Their logged output is left out.
- **Wall-clock timing.** `time.sleep(1)` between probes is left out. Only the probe count of the polling loop is kept.
- **`retry_seconds`.** It is a natural number. A negative value, for which Python's `range` runs no round, is not modelled.
- **Browser.** `webbrowser.open` is the recorded action `OpenBrowser`. The code discards its result and swallows its exceptions, so that result is not an input.
- **Flag files.** Their timestamp contents are not modelled. A `write_text` that raises is not modelled either. At line 118 it would send the install to the browser fallback; at lines 172 and 193 it would escape from `main`.
- **Database.** SQLite connections, the thread-local handle, and the `sessions` and `messages` tables are left out. The core creates those tables empty and never uses them.
- **Temperature parsing.** The float conversion of the stored temperature is an input: the exception `float()` raises, if any. The temperature value itself stays text.
- **JSON decoding of backend lines.** Lines arrive already classified as blank, a record, or malformed. `Malformed` stands for every line that raises. In `stream_ollama` that is a `json.loads` error, or a `message` that is not an object (line 239). In `gen` it is a `content` that is not a string, such as `null`: `full += chunk` raises (line 273) before that fragment's text event is sent. All of these end the relay with one error event. `Record` holds only a string content or none, so the model does not say which JSON values raise. A `done` value that is not a boolean, which Python tests for truthiness, is not modelled.
- **Lone surrogates.** Dafny's `char` has no lone surrogate code points. Python's `json.loads` yields them for a lone `\ud800` escape in a backend line, and `json.dumps` escapes them again as `\ud800`. The model's text is made only of Unicode scalar values, so such text cannot occur in it.
- **The `full` accumulator.** `gen` concatenates every chunk into `full` and never reads it. Its only effect is the `TypeError` described above, which the model represents as a malformed line.
- **Request body decoding.** The fields are strings or absent. A `message` that is not a string, where `.strip()` would raise and Flask would answer 500, is not modelled. A `model` that is not a string is not modelled either. Such a model is only tested for truthiness: a falsy one (`0`, `false`, `null`) gets the 400, and a truthy one (`5`, `true`) passes the gate and is sent to the backend as is. `request.json` errors for non-JSON bodies are not modelled.
- **Event-stream reader.** It handles line-feed line endings and the `data` field only. The frames contain no carriage return, and the gateway sends no other field.
- **Concurrency.** The threaded Flask server and the daemon server thread are left out.
- **Presentation and bundling.** The pywebview window, the browser fallback after startup and its endless sleep loops are left out. So are the HTML page and `/api/status`. Also left out: logging, `print`, and `_resource_base` (the resource directory is an input).
