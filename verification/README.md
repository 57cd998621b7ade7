# test-api-rs request handlers, modelled in Dafny

test-api-rs is a small diagnostic HTTP service. This project models the
logic in `src/handlers.rs`:

- **The WebSocket echo session** (`handle_socket`). It sends a greeting and
  echoes every text and binary message verbatim, in order. The session has a
  hard lifetime of 10 seconds, counted from its start and never extended by
  traffic. When that lifetime runs out it sends a "Timeout expired" notice.
  On every path past the greeting it then tries to send "Bye Bye", and it
  closes the socket only if that send succeeded.
- **`headers`.** It reflects the request headers, except eight proxy headers,
  as a map ordered by name.
- **`sleep`.** It accepts a duration of at most 30000 ms.
- **`ip`.** It reports the `x-real-ip` header.
- **`counter`.** It hands out 1, 2, 3, … to successive requests.

Time and I/O are abstracted. A session is a pure function of three inputs:

- its start time, in milliseconds;
- a trace of inbound events (a message, end of stream or a receive error),
  each stamped with the time it becomes available;
- a send oracle `ok: nat -> bool` that says whether the n-th send attempt
  succeeds. The greeting is attempt 0.

The result is the list of frames the session attempted to send, whether
`close()` was called, and why the session ended.

The `tokio::time::timeout` race is modelled as follows. The next event wins
when it arrives strictly before `start + 10 s`. Otherwise, or when no event
ever arrives (the trace is exhausted), the timer wins. Sends take no time in
the model, so the loop is always waiting on the stream when an event
arrives; an event that was already waiting before the deadline is delivered,
as tokio polls the stream before the timer. See "## Left out" for what this
leaves out.

Files, one module each:

- `http.dfy` (`Http`): bytes, header values, `HeaderValue::to_str`, and the
  first and last value of a name in a header map.
- `session.dfy` (`Session`): the echo session, both as a recursive function
  (`HandleSocket`/`EchoLoop`) and as the same `loop` with every break path
  (`RunSession`), proved equal.
- `session_spec.dfy` (`SessionSpec`): the loop's behaviour stated without the
  loop. It defines the admitted messages, their echoes, the full transcript,
  the fixed deadline and the keepalives.
- `session_scenarios.dfy` (`SessionScenarios`): two concrete sessions.
- `headers.dfy` (`Headers`): the string order, the sorted map and `headers`.
- `endpoints.dfy` (`Endpoints`): `sleep`, `ip`, `counter`.

Notes on the code:

- The loop also ends on a receive error (`Some(Err(_))`, handlers.rs:117),
  not only on a Close frame or the end of the stream. This is exit
  `ReceiveFailed`.
- `ws_handler` is not registered in the router of `src/main.rs:60-69`, so no
  route reaches the echo session in this revision. The model covers
  `handle_socket` itself.
- `headers` collects into a `BTreeMap`, so for a repeated header the last
  value wins. `ip` uses `HeaderMap::get`, so it reports the first
  `x-real-ip` value. An invalid value is shown as `"invalid string"` by
  `headers` but as `""` by `ip`.

## Model

| member | source | states |
|---|---|---|
| Session.HandleSocket | src/handlers.rs:97-140 | The greeting "Hello from Rust!" is always the first frame attempted. If it fails, nothing else is attempted and `close()` is not called. Otherwise "Bye Bye" is the last frame attempted, and `close()` is called exactly when that send succeeded. |
| Session.RunSession | src/handlers.rs:97-140 | The same `loop`, with every break path, computes exactly the outcome `HandleSocket` defines: every break path, the ignored timeout-notice result and the shared closing step. Each send consumes the next oracle answer. |
| Session.EchoLoop | src/handlers.rs:109-136 | Every frame the loop attempts is an echoed Text or Binary message, except a final "Timeout expired" when it timed out. Every attempt but the last succeeded; after an echo failure the last one failed. Its full behaviour is stated by `SessionSpec.EchoLoopSpec`. |
| SessionSpec.Admitted | src/handlers.rs:109-119 | The messages that pass the guards at handlers.rs:110-119 when no echo fails: exactly the longest prefix of the trace whose events arrive before the deadline and are not Close, end of stream or receive error. The first event after that prefix is late or terminal. Where a failed echo cuts this list short is stated by `SessionSpec.EchoLoopSpec`. |
| SessionSpec.EchoesOfData | src/handlers.rs:121-131 | A stream of Text and Binary messages is echoed back unchanged. |
| SessionSpec.EchoesAppend | src/handlers.rs:121-131 | Echoing keeps arrival order: the echoes of two consecutive stretches of messages are the first stretch's echoes followed by the second's. |
| SessionSpec.EchoesExactlyOnce | src/handlers.rs:121-133 | Every Text(s) and Binary(b) received is echoed exactly as many times as it was received. Ping, Pong and Close are never echoed. |
| SessionSpec.EchoLoopSpec | src/handlers.rs:109-136 | Full behaviour of the echo loop. It exits on an echo failure exactly when one of the admitted echoes fails to send; it has then attempted the echoes up to and including the first failing one. Otherwise it attempted every echo. It ends with the timeout notice exactly when the deadline came before a terminal event. If a terminal event came first, no notice is sent, and the exit is named after that event. |
| SessionSpec.Transcript | src/handlers.rs:101-139 | After a successful greeting, the session's transcript is one of three: greeting, all echoes, "Timeout expired", "Bye Bye"; greeting, all echoes, "Bye Bye" after a peer close, end of stream or receive error; or greeting, the echoes up to the first failing one, "Bye Bye". `close()` is called exactly when the last send succeeded. |
| SessionSpec.LateEventsIgnored | src/handlers.rs:98-111 | The deadline is fixed at `start + 10 s` and never reset. An event arriving at or after it has no effect, and nothing after that event has any either, however busy the trace was before. |
| SessionSpec.KeepaliveIgnored | src/handlers.rs:132-133 | A Ping or Pong arriving before the deadline changes nothing: inserting one anywhere in a trace leaves the outcome identical. |
| SessionScenarios.PingThenSilence | src/handlers.rs:101-139 | A client sends "ping" and then stays silent. It receives the greeting, "ping", "Timeout expired" and "Bye Bye", and the socket is closed. |
| SessionScenarios.BusyClientStillTimesOut | src/handlers.rs:98-115 | A client sends a message every second for 15 s. Only the messages at 1 s to 9 s are echoed, and the session times out at the 10-second mark. |
| Http.ToStr | src/handlers.rs:65 | `HeaderValue::to_str`, used here and by `ip` at line 83: a value is text exactly when every byte is visible ASCII (32–126) or a tab, and the text then has the value's bytes as its characters, in order. |
| Http.Get | src/handlers.rs:81-82 | `HeaderMap::get` yields nothing exactly when the name is absent. Otherwise it yields the value of the first entry with that name. |
| Http.Last | src/handlers.rs:62-66 | The value a map built in iteration order keeps for a name is that of the last entry with the name. It is absent exactly when the name is absent. |
| Headers.BelowTotal | src/handlers.rs:66 | The key order of the `BTreeMap` (`str`'s `Ord`: character by character, a proper prefix first) is total: of two different names one is below the other. With `BelowIrreflexive` and `BelowTransitive` it is a strict total order. |
| Headers.Insert | src/handlers.rs:66 | Inserting into the sorted map keeps keys strictly ascending. It adds exactly the new key and stores the new value under it. Every other key keeps its value. |
| Headers.Render | src/handlers.rs:65 | A value is reported as its text when every byte is visible ASCII or a tab, and as "invalid string" otherwise. |
| Headers.Reflect | src/handlers.rs:51-66 | The reflected map has strictly ascending, hence unique, keys. For every name it holds nothing if the name is one of the eight proxy headers or absent from the request. Otherwise it holds the rendered text of the name's last value. |
| Headers.ReflectOmitsProxies | src/handlers.rs:52-64 | No key of the reflected map is one of the eight proxy headers, and every key names a header of the request. |
| Headers.ReflectKeepsOthers | src/handlers.rs:62-66 | Every request header that is not a proxy header appears as a key of the reflected map. |
| Headers.ReflectOrderIndependent | src/handlers.rs:62-66 | Two header maps that agree on every name's last value reflect to the same map, so how the headers of different names interleave in iteration order does not matter. |
| Headers.ReflectLastValueWins | src/handlers.rs:62-66 | A header name maps to the text of its last value, or to "invalid string" when that value is not visible ASCII. |
| Endpoints.Sleep | src/handlers.rs:72-78 | BAD_REQUEST (400) exactly when the duration exceeds 30000 ms, with no sleep asked for. Otherwise OK (200) after asking to sleep for exactly the duration, so 30000 itself is accepted. No request asks to sleep for more than 30000 ms. |
| Endpoints.Ip | src/handlers.rs:80-85 | The reply is "" when `x-real-ip` is absent. If its first value is valid text, the reply is that text. If the first value is not valid text, the reply is "", even when a later value is valid. |
| Endpoints.IpHiddenFromHeaders | src/handlers.rs:58-83 | The address `ip` reports comes from `x-real-ip`, which the `headers` map never contains. |
| Endpoints.FetchAdd | src/handlers.rs:47 | `fetch_add(1)` answers the value the counter holds and leaves it plus one, wrapping around to 0 at 2^64. |
| Endpoints.Responses | src/handlers.rs:40-48 | Requests served one after another from a counter holding c receive c, c+1, c+2, … modulo 2^64. |
| Endpoints.CounterNumbersRequests | src/handlers.rs:41-47 | Starting from 1, the i-th request (counting from 0) receives i+1 modulo 2^64. No two of the first 2^64 requests receive the same value. |

## Left out

- Real time and async I/O. Arrival timestamps and a send oracle stand in
  for `Instant`, `tokio::time::timeout` and the socket's sends and receives.
  Time is counted in whole milliseconds.
- `tokio::time::sleep` (handlers.rs:76): `Sleep` records the duration the
  handler asks to sleep for. The real wait is at least that long, since
  tokio rounds its deadline up to the next millisecond tick.
- Send durations: a send completes instantly in the model. So a message that
  arrives after the deadline while a greeting or echo send is still in
  progress counts as late, though tokio would deliver it: once the deadline
  has passed, `expires - Instant::now()` saturates to zero and tokio polls
  the stream before the timer (handlers.rs:110).
- `Instant::checked_add(...).expect(...)` (handlers.rs:98-100): the deadline
  is an unbounded natural number, so the overflow panic cannot arise in the
  model.
- The 1024-byte message limit of `ws_handler` (handlers.rs:93-95): an
  over-long message reaches `handle_socket` as a receive error
  (`Some(Err(_))`, the model's `RecvError`), which ends the loop. The model
  does not bound the length of Text and Binary payloads.
- The payloads of Ping and Close frames, and the pong replies the transport
  sends on its own: `handle_socket` ignores them.
- `close()`'s own result (handlers.rs:138): it is discarded, and the model
  records only whether `close()` was called.
- Concurrency and memory ordering of `counter` (`SeqCst`): requests are
  modelled as served one after another.
- Serialising the header map and the `ip` and `counter` replies to JSON
  (serde_json): the model stops at the map and the values.
- `HeaderMap`'s iteration order across different names: the model reads the
  map in insertion order. `Headers.ReflectOrderIndependent` proves that the
  result is the same for any order that keeps the values of one name in
  insertion order, as `HeaderMap` does.
- Path extraction of `sleep`'s duration: a duration that is not a valid
  u64 is rejected by the framework before the handler runs.
- `index`, `about` (handlers.rs:22-38), the router, the CORS layer, the
  server binding and `shutdown_signal` (src/main.rs), and `build.rs`. They
  return fixed content or are framework, signal and build glue with no
  logic of their own.
