# http — request dispatch and response rendering

A model of the pure logic of the `http` command-line client (package
`internal`): how `Response.FormatOutput` decides what a response looks like
when printed, how the status text is coloured, how the configured headers are
attached to the outgoing request, which request builder `MakeRequest`
dispatches to, and the ANSI colour wrappers of `internal/logger`.

Modules, one per concern of the source:

- `Wrappers` — `Option` and `Result` (Go's `(value, error)` pair).
- `Text` — Go byte strings as byte-per-character text (`string(b)`),
  `strings.Join` with its inverse `Split`, and `fmt.Println` spacing
  (operands separated by one space, newline appended; so
  `fmt.Println("Final url: ", link)` prints two spaces before the link).
- `Colors` — the eight wrappers of `internal/logger/colors.go`, their common
  shape `Wrap`, and the inverse `Unwrap`.
- `Headers` — `http.Header` as `map<string, seq<string>>`, `Header.Add`, the
  header loop of `makeRequestWrapper`, the allow-list `shortListOfHeaders` and
  `slices.Index`.
- `Rendering` — `Response`, the status tone, `statusCode`, `proto` and
  `FormatOutput`. The output is the sequence of texts written by the print
  calls, in order, each with its own trailing newline.
- `Execution` — `Request`, the policy `MakeRequest`/`makeRequestWrapper`
  choose (a `Plan`), and how the network reply becomes a `Response`.

The global switches `*AllHeaders` and `*WithoutBody` are a `DisplayOptions`
value. Go's map iteration order is an explicit `order` argument, required to
list every header name exactly once; the header records are stated name by
name, one `name : v1,v2` record per shown name, in the order of a distinct
enumeration of exactly the shown names (`ShownNames`, `RecordsOf`). `decodeUnicodeEscapes` and
`time.Duration.String` are opaque functions in a `Library` record. Only
`string(body)` is held byte for byte; the decoded body is held as characters,
not as the UTF-8 bytes Go prints for it. The network
exchange (`http.NewRequest`, `client.Do`, `io.ReadAll`, `resp.Location()`) is
a function parameter `send` of `MakeRequest`.

The model follows the code in these details:

- The response time is measured before the body is read
  (internal/request.go:162-164), so `Exchange.elapsed` excludes body reading.
- `resp.Location()` is read from whatever response was finally reached, with
  or without redirect following; an absent or unparsable `Location` gives an
  empty redirect link.
- Only the plain path logs the request body (internal/request.go:107); the
  timeout path does not. `Plan.logsPayload` records this.
- The timeout is a `time.Duration` counting seconds and is multiplied by
  `time.Second` (internal/request.go:116).
- Configured headers are a map, so each name is added once; the result is the
  same for every iteration order (keys taken as canonical, see Left out).

## Model

| member | source | states |
|---|---|---|
| `Colors.Wrap` | internal/logger/colors.go:3-33 | output is code, then the text, then the reset `ESC[0m`; its length is the sum of the three; `Unwrap` gives the text back |
| `Colors.Unwrap` | internal/logger/colors.go:3-33 | succeeds exactly on texts that start with the code and end with the reset, and then the text is code + result + reset |
| `Colors.Red` | internal/logger/colors.go:3-5 | `ESC[0;31m` wrapper: stripping its code and the reset gives the argument back; length is code + argument + reset |
| `Colors.Green` | internal/logger/colors.go:7-9 | `ESC[0;32m` wrapper: round-trips through `Unwrap`; length law |
| `Colors.Yellow` | internal/logger/colors.go:11-13 | `ESC[0;33m` wrapper: round-trips through `Unwrap`; length law |
| `Colors.Blue` | internal/logger/colors.go:15-17 | `ESC[0;34m` wrapper: round-trips through `Unwrap`; length law |
| `Colors.LightBlue` | internal/logger/colors.go:19-21 | `ESC[94m` wrapper: round-trips through `Unwrap`; length law |
| `Colors.LightGreen` | internal/logger/colors.go:23-25 | `ESC[92m` wrapper: round-trips through `Unwrap`; length law |
| `Colors.Orange` | internal/logger/colors.go:27-29 | `ESC[93m` wrapper: round-trips through `Unwrap`; length law |
| `Colors.LightRed` | internal/logger/colors.go:31-33 | `ESC[91m` wrapper: round-trips through `Unwrap`; length law |
| `Colors.EndsWithReset` | internal/logger/colors.go:3-33 | every one of the eight wrappers ends with the reset sequence |
| `Colors.WrapInjective` | internal/logger/colors.go:3-33 | a fixed wrapper maps distinct texts to distinct outputs |
| `Colors.StatusCodesDistinct` | internal/logger/colors.go:23-33 | no status colour's code is a prefix of another status colour's output, so the tone is recoverable |
| `Text.BytesText` | internal/request.go:71 | `string(body)` keeps every byte: same length, and reading the text back gives the bytes |
| `Text.SplitJoin` | internal/request.go:56 | splitting the comma join of values that contain no comma gives the values back |
| `Text.JoinLength` | internal/request.go:56 | `strings.Join` output is as long as the parts plus one separator between each pair of neighbours |
| `Text.JoinEnds` | internal/request.go:61 | `strings.Join` output starts with the first part and ends with the last |
| `Text.PrintlnPair` | internal/request.go:49-53 | `fmt.Println` of two operands prints them with one space between and a newline after |
| `Text.PrintlnTriple` | internal/request.go:56 | `fmt.Println` of three operands prints them with one space between each and a newline after |
| `Headers.Add` | internal/request.go:129 | `Header.Add` appends the value after all earlier values of the name and leaves every other name as it was |
| `Headers.Attached` | internal/request.go:128-130 | the names after attaching are the old names plus the configured ones |
| `Headers.AttachedByKey` | internal/request.go:128-130 | a header that holds, for every configured name, the old values plus the configured one, and every other name unchanged, with no extra names, is exactly `Attached` |
| `Headers.AttachHeaders` | internal/request.go:128-130 | the header loop, in any iteration order, appends each configured value to its name's list, keeps unconfigured names unchanged, adds no other name, and equals the order-free `Attached` |
| `Headers.Listed` | internal/request.go:60 | a name passes the filter exactly when it equals one of the five allow-listed names |
| `Headers.HeaderLineShape` | internal/request.go:56 | every header record, whatever its values (commas included), is `name : ` then the values joined by commas, then a newline |
| `Headers.Index` | internal/request.go:60 | `slices.Index` is -1 exactly when the name is absent, else the first position holding exactly that name |
| `Headers.HeaderLineValues` | internal/request.go:61 | a header record is `name : ` followed by the values, which can be split back out when none contains a comma |
| `Rendering.Classify` | internal/request.go:37-45 | [200,300) is success, [300,400) caution, every other integer (below 200 too) error; the three cases are exclusive and exhaustive |
| `Rendering.StatusCode` | internal/request.go:37-45 | the output is the status text unchanged between the tone's colour code and the reset, and the tone read back from it is the code's classification |
| `Rendering.Proto` | internal/request.go:33-35 | the protocol text unchanged inside the light-blue wrapper |
| `Rendering.StatusLineShape` | internal/request.go:48 | the first line is the protocol in light blue, one space, the status text in its code's colour, then a newline |
| `Rendering.LabelledLineShapes` | internal/request.go:49-53 | the final-url, redirect and response-time lines are their label (`Final url:`, `Redirect url:`, `Response time:`), two spaces, the value, a newline |
| `Rendering.RedirectLineDiffers` | internal/request.go:48-53 | a redirect line never equals the status, final-url or response-time line |
| `Rendering.ToneIgnoresStatusText` | internal/request.go:37-45 | the colour depends on the code only, not on the status text |
| `Rendering.Preamble` | internal/request.go:48-53 | status line, then final url, then the redirect line (third) exactly when the redirect link is non-empty, then the response time |
| `Rendering.FilterListed` | internal/request.go:59-63 | keeps exactly the names found in the five-name allow-list, and keeps them distinct |
| `Rendering.ShownOrderFacts` | internal/request.go:54-63 | the names printed are distinct and are exactly the header names (all-headers mode) or the allow-listed names present (filtered mode) |
| `Rendering.HeaderLines` | internal/request.go:54-64 | the records are, name by name, `name : v1,v2` for a distinct enumeration of exactly the shown names: every header in all-headers mode, the allow-listed headers present in filtered mode |
| `Rendering.BodySection` | internal/request.go:68-75 | nothing when the body is hidden; otherwise exactly one record, holding the decoded text when decoding succeeds and the raw bytes verbatim when it fails |
| `Rendering.FormatOutput` | internal/request.go:47-76 | the full output: status and final url first, redirect line third and present exactly when the link is non-empty, response time, the header records, the blank-line separator, then the body section |
| `Rendering.HiddenBodyIrrelevant` | internal/request.go:68 | with the body hidden the output is the same whatever the body is |
| `Execution.WrapInt64` | internal/request.go:116 | the wrapped product is congruent to the exact product modulo 2^64 and lies in the int64 range |
| `Execution.TimeoutNanosAsWritten` | internal/request.go:116 | `r.Timeout*time.Second` is the exact product reduced modulo 2^64 into the int64 range |
| `Execution.TimeoutWrapsNegative` | internal/request.go:116 | a 9223372037-second timeout wraps to a negative duration |
| `Execution.TimeoutNanos` | internal/request.go:116 | the timeout in nanoseconds keeps the sign of the configured timeout, is exact when it fits in int64 and saturates otherwise |
| `Execution.TimeoutNanosMatchesAsWritten` | internal/request.go:116 | the saturating conversion equals the source's wrapping product whenever that product does not overflow |
| `Execution.HugeTimeoutPlansNegativeDuration` | internal/request.go:97-98 | a 9223372037-second request takes the timeout path with a negative duration |
| `Execution.MakePlan` | internal/request.go:97-154 | the timeout path is taken exactly when the timeout is non-zero, with the wrapping duration of line 116, the body is logged exactly on the plain path, each configured header is sent with exactly its one value, redirects are followed exactly when asked and certificate checks skipped exactly when asked |
| `Execution.UnwiredFieldsInert` | internal/request.go:83-85 | user agent, cookies and proxy have no effect on what is sent |
| `Execution.MakeRequest` | internal/request.go:91-186 | a network error is returned as is with no response; on success the reply's protocol, status, final url, headers, body and time are reported unchanged, and the redirect link is the reply's Location or empty without one |

## Left out

- Network execution: `http.NewRequest`, `http.NewRequestWithContext`, `client.Do`, `io.ReadAll`, the `CheckRedirect` hooks and the `InsecureSkipVerify` transport are foreign library I/O; `send` stands for them, and `Plan` records which policy each flag selects.
- Timeout cancellation (`context.WithTimeout`, `cancel`) and `resp.Body.Close`: resource handling inside the library; only the duration handed to `context.WithTimeout` is modelled.
- Timing: `time.Now` and `time.Since` read the clock; the elapsed time arrives in `Exchange.elapsed`.
- `decodeUnicodeEscapes` (internal/request.go:189-195) is a thin wrapper over `strconv.Quote`/`strconv.Unquote`; it is the opaque `Library.decodeUnicodeEscapes`, and only the fallback around it is modelled.
- `time.Duration.String` formatting of the response time is the opaque `Library.durationString`.
- `resp.Location()` URL parsing is a library call; its outcome is `Exchange.location`.
- Go's header-key canonicalisation inside `Header.Add`: keys are taken as already canonical.
- Map iteration order: unspecified in Go; it is the `order` argument.
- Logging of the request body on the plain path prints; only the fact that it happens is modelled (`Plan.logsPayload`).
- URL scheme canonicalisation: `ParseAndGetRequest` is not part of this model.
- internal/flags.go: flag parsing and help/version printing.
- internal/logger/logger.go: printing and process exit.
- cmd/http/main.go: process plumbing.
- internal/http/request.go: a bare struct with no behaviour.
- Headers.Attached: its contract states only the resulting names; the values are stated by `Headers.AttachHeaders`, which is proved equal to it.
- Rendering.HeaderLines: states the records name by name along some distinct enumeration of the shown names, not which enumeration, because that order is Go's unspecified map order.

## Findings

| source | as written | input that shows it | evidently intended | confidence | as-written member | corrected member |
|---|---|---|---|---|---|---|
| internal/request.go:116 | `r.Timeout*time.Second` multiplies two 64-bit durations and wraps on overflow | `Timeout` = 9223372037 gives -9223372036709551616 ns, a deadline already in the past, so the request times out at once | a positive timeout gives a positive deadline, saturating at the largest duration | low; not executed (the code that sets `Timeout` is not part of this model) | `Execution.TimeoutNanosAsWritten`, `Execution.TimeoutWrapsNegative` | `Execution.TimeoutNanos` |
