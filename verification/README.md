# Credential tester core, modelled in Dafny

The tool probes a login endpoint with candidate credentials. It decides from
the shape of the HTTP response alone whether an attempt probably succeeded.
This project models the two self-contained pieces of logic behind that
decision:

- **The failure signature and the anomaly score** (`login_detector.py`).
  `PatternAnalyzer.analyze` reduces a sample of calibration responses to a
  pattern. The pattern has a status code (or `None` when the sample
  disagrees), a length band `[min - 50, max + 50]` and a final URL (or
  `None`). The scoring part of `LoginDetector.test_credential` compares one
  response with that pattern. It adds 3 for a changed status, 2 for a length
  outside the band and 3 for a changed URL. It records one reason per check
  that fired, and calls the response a success when the score is at least 3.
- **The credential-line parser** (`InputEngine.load_credentials` in
  `input_engine.py`). Each line is stripped, and blank lines are skipped. The
  line is then split once: at the caller's delimiter if one is given (a line
  without it yields nothing), or else at the first of `:` `,` `;` `|` that
  occurs in the line. Both halves are
  stripped, and the line is dropped when either half is empty.

Files:

- `wrappers.dfy` (module `Wrappers`): the `Option` type that stands for Python's `None`.
- `text.dfy` (module `Text`): the Python string operations the parser relies on. These are `str.strip()`, `d in s` and `str.split(d, 1)`, each with a contract that characterises it. The last two rest on `Find`, a search for the first occurrence of the separator.
- `login_detector.dfy` (module `LoginDetector`):
  - `Analyze` is a pure function built from the list comprehensions, `min`, `max` and the set-size tests.
  - `ScoreResponse` is an imperative method. Like the source, it accumulates a score and appends to a list of deviations, check by check. Its contract ties it to the specification function `Judge`, and lemmas about `Judge` state the scoring properties.
- `input_engine.dfy` (module `InputEngine`):
  - `ParseLine` is the body of the generator's loop. It calls `SplitAtFirstDelimiter`, which is the inner loop over the delimiter list with its `break`.
  - `LoadCredentials` is the outer loop, over a sequence of lines instead of a file.
  - Each method is proved against a specification function (`SplitAtFirst`, `ParsedLine`, `ParsedLines`). The lemmas state what the source promises about those functions.

The modelling decisions:

- **The HTTP response** is reduced to `Probe(status, length, url)`: `response.status_code`, `len(response.text)` and `response.url`.
- **The reason strings** become `Reason` values: `StatusChanged(old, new)`, `LengthAnomaly(length, lo, hi)` and `Redirected(old, new)`. They carry the values the strings would print.
- **The guards' Python truthiness** is modelled exactly. The status check runs only when the pattern's status is neither `None` nor `0`. The URL check runs only when the pattern's URL is neither `None` nor `""`. An explicit delimiter is used only when it is neither `None` nor `""`.
- **The delimiter** is any non-empty string. The code allows multi-character delimiters, because it uses substring `in` and `split`.
- **Whitespace for `strip()`** is the ASCII part of Python's `str.isspace()`. That is space, `\t`, `\n`, `\v`, `\f`, `\r` and the four separators 0x1C to 0x1F.

The model follows the code where it is stricter or looser than its intent:

- A check is meant to be skipped when its signature field is unset. The code tests truthiness, so a pattern status of `0` or a pattern URL of `""` also switches its check off.
- A signature whose status and URL are both unset cannot tell a success from a failure, and the code emits no warning about it. `FalsyPatternNeverSucceeds` states the consequence: such a pattern never reports a success.

## Model

| member | source | states |
|---|---|---|
| `LoginDetector.Analyze` | login_detector.py:79-110 | on a non-empty sample (on an empty one `min(lengths)` raises; the conditional at line 99 yields `None` before indexing): the status is `Some` of the first status exactly when every sample has that status, else `None`; the same for the URL; every sample length lies in the band with 50 to spare on each side, both band ends are reached by some sample (minus/plus 50), and the band is at least 100 wide |
| `LoginDetector.Statuses` | login_detector.py:88 | `[r.status_code for r in responses]`: one entry per response, in order, each that response's status |
| `LoginDetector.Lengths` | login_detector.py:89 | `[len(r.text) for r in responses]`: one entry per response, in order, each that response's length |
| `LoginDetector.Urls` | login_detector.py:90 | `[r.url for r in responses]`: one entry per response, in order, each that response's final URL |
| `LoginDetector.Common` | login_detector.py:99-102 | `xs[0] if len(set(xs)) == 1 else None`; its meaning (unanimity) is stated by `CommonIsUnanimous` |
| `LoginDetector.CommonIsUnanimous` | login_detector.py:99-102 | the test `len(set(xs)) == 1` holds exactly when every element equals the first, so `xs[0] if ... else None` is `Some(xs[0])` on unanimity and `None` otherwise |
| `LoginDetector.MinOf` | login_detector.py:100 | `min(lengths)` is one of the lengths and no length is below it |
| `LoginDetector.MaxOf` | login_detector.py:101 | `max(lengths)` is one of the lengths and no length is above it |
| `LoginDetector.StatusFires` | login_detector.py:155 | the status check fires when the pattern's status is truthy (neither `None` nor `0`) and differs from the response's; its consequences are stated by `FalsyPatternNeverSucceeds` and `SuccessIffStrongSignal` |
| `LoginDetector.LengthFires` | login_detector.py:160-161 | the length check fires when the length lies outside the band, both ends inclusive |
| `LoginDetector.UrlFires` | login_detector.py:166 | the URL check fires when the pattern's URL is truthy (neither `None` nor `""`) and differs from the response's |
| `LoginDetector.Judge` | login_detector.py:150-171 | the verdict specified as a whole: the weights of the checks that fired, their reasons in check order, and `score >= 3`; the scoring lemmas below state its properties |
| `LoginDetector.ScoreResponse` | login_detector.py:150-173 | the running score, the deviations list built check by check, and `is_success = score >= 3` give exactly the verdict `Judge` specifies |
| `LoginDetector.ScoreRange` | login_detector.py:155-168 | the score is one of 0, 2, 3, 5, 6, 8 and lies between 0 and 8 |
| `LoginDetector.SuccessIffStrongSignal` | login_detector.py:155-171 | success holds iff the status check or the URL check fired, iff the score is at least 3; score 2 (a length anomaly alone) is never a success and score 3 always is |
| `LoginDetector.ReasonsMatchChecks` | login_detector.py:151-168 | there is one reason per check that fired, in the order status, length, URL; each check fired iff its reason (with the values it reports) is in the list; the list is empty iff the score is 0 |
| `LoginDetector.FalsyPatternNeverSucceeds` | login_detector.py:155-171 | when the pattern's status is `None` or `0` and its URL is `None` or `""`, no response is a success and the score is at most 2 |
| `LoginDetector.CalibrationMatchesOwnPattern` | login_detector.py:98-171 | every response of a calibration sample, scored against the pattern built from that sample, gets score 0, no reasons and no success |
| `LoginDetector.DeviationAddsWeight` | login_detector.py:155-168 | the checks are independent: on any response, changing only the status, only the length or only the URL so that its check goes from not firing to firing adds exactly 3, 2 or 3 to the score, whatever the other checks do |
| `LoginDetector.ScenarioAllDeviate` | login_detector.py:150-171 | status 200→302, length 80 outside 450-550 and URL /login→/home give score 8, success, and the three reasons in order |
| `LoginDetector.ScenarioMatch` | login_detector.py:150-171 | a response matching status, band and URL gives score 0 and no success |
| `LoginDetector.ScenarioLengthOnly` | login_detector.py:160-171 | a length of 700 outside 450-550 alone gives score 2, one length reason and no success |
| `Text.IsSpace` | input_engine.py:10 | the characters `strip()` removes: the ASCII characters for which `str.isspace()` holds |
| `Text.TrimStart` | input_engine.py:10 | the leading-whitespace trim is no longer than its input and does not start with whitespace |
| `Text.TrimStartShape` | input_engine.py:10 | what the leading trim keeps is a suffix of the input, and what it drops is all whitespace |
| `Text.TrimEnd` | input_engine.py:10 | the trailing-whitespace trim is no longer than its input and does not end with whitespace |
| `Text.TrimEndShape` | input_engine.py:10 | what the trailing trim keeps is a prefix of the input, and what it drops is all whitespace |
| `Text.Strip` | input_engine.py:10 | `strip()` neither starts nor ends with whitespace |
| `Text.StripShape` | input_engine.py:10 | `strip()` is the slice of the input between a leading and a trailing run of whitespace |
| `Text.StripFramed` | input_engine.py:33-34 | `strip()` of whitespace, then a string without edge whitespace, then whitespace, is that middle string: the characterisation determines the result |
| `Text.StripNoEdge` | input_engine.py:33-34 | a string without edge whitespace is its own `strip()` |
| `Text.StripEmptyIff` | input_engine.py:10-14 | a line is `""` after `strip()` exactly when all its characters are whitespace |
| `Text.AllSpaceConcat` | input_engine.py:10 | two whitespace runs joined are a whitespace run |
| `Text.FindFrom` | input_engine.py:25-26 | the search from `start` returns an occurrence of `d` at or after `start` with none between `start` and it, or reports that none exists from `start` on |
| `Text.Find` | input_engine.py:25-26 | the first-occurrence search behind `d in s` and `s.split(d, 1)` returns the first index where `d` occurs, or reports that `d` occurs nowhere |
| `Text.Contains` | input_engine.py:25 | `d in s`: the search finds an occurrence; `ContainsIff` states it as an existential |
| `Text.ContainsIff` | input_engine.py:25 | `d in s` holds exactly when `d` occurs at some index of `s` |
| `Text.ContainsSlice` | input_engine.py:25 | a substring of a slice of `s` is a substring of `s` |
| `Text.StripInside` | input_engine.py:33-34 | a substring of `strip(s)` is a substring of `s` |
| `Text.SplitOnce` | input_engine.py:26-30 | `s.split(d, 1)` gives two parts exactly when `d` occurs in `s` (so `len(parts) != 2` only when it does not), else `[s]`; the two parts joined by `d` are `s`, the first part does not contain `d`, and `d` occurs nowhere in `s` before the split point, so the split is at the first occurrence even for an overlapping separator |
| `Text.SplitOnceFirst` | input_engine.py:26 | the split is determined: if `s == a + d + b` and `d` occurs nowhere in `s` before `|a|`, then `s.split(d, 1)` is `[a, b]` |
| `Text.SplitOverlapExample` | input_engine.py:26 | `"aaa".split("aa", 1)` is `["", "a"]`: the first occurrence wins |
| `Text.SplitOnceAfter` | input_engine.py:26 | when no occurrence of `d` starts inside `u`, `(u + d + p).split(d, 1)` is `[u, p]` |
| `InputEngine.Candidates` | input_engine.py:17-20 | the candidate list is non-empty and holds no empty delimiter |
| `InputEngine.FirstPresent` | input_engine.py:24-27 | picks the first candidate in list order that occurs in the line, with no earlier candidate occurring; or reports that none occurs |
| `InputEngine.SplitAtFirst` | input_engine.py:22-30 | `parts` is `None` exactly when no candidate occurs in the line, and otherwise always has two parts |
| `InputEngine.ParsedLine` | input_engine.py:10-40 | what one line yields: `None` for a blank line, a line with no candidate delimiter, or an empty half; else the stripped halves of the split at the first candidate present; its promises are stated by the per-line lemmas below |
| `InputEngine.ParsedLines` | input_engine.py:9-40 | the pairs a sequence of lines yields, in line order; its promises are stated by the `ParsedLines` lemmas below |
| `InputEngine.SplitAtFirstDelimiter` | input_engine.py:22-27 | the inner loop with its `break` leaves `parts` exactly as `SplitAtFirst` specifies |
| `InputEngine.ParseLine` | input_engine.py:10-40 | one pass of the generator's loop yields exactly what `ParsedLine` specifies for the line |
| `InputEngine.LoadCredentials` | input_engine.py:6-40 | the pairs produced for a sequence of lines are exactly `ParsedLines` of it |
| `InputEngine.BlankLineSkipped` | input_engine.py:10-14 | a line made only of whitespace yields no pair |
| `InputEngine.ParsedPairShape` | input_engine.py:20-38 | a produced pair has a non-empty username and password, neither with whitespace at its ends; a delimiter was chosen; the username contains neither the chosen delimiter nor any listed before it, and the password contains none listed before it |
| `InputEngine.HalvesAvoidEarlier` | input_engine.py:24-34 | the stripped halves of a split at the first listed delimiter present contain no delimiter listed before it, and the stripped head does not contain the chosen one |
| `InputEngine.ListOrderExample` | input_engine.py:20-27 | `"a,b:c"` parses to `("a,b", "c")`: `:` wins by list order although `,` comes first in the line |
| `InputEngine.SplitOnceExample` | input_engine.py:26-34 | `"u:p:q"` parses to `("u", "p:q")`: the split happens once, so the password keeps later delimiters |
| `InputEngine.ExplicitDelimiterOnly` | input_engine.py:17-18 | with a non-empty explicit delimiter absent from the stripped line, the line yields nothing, whatever default delimiters it holds |
| `InputEngine.EmptyDelimiterIsDefault` | input_engine.py:17-20 | an empty explicit delimiter behaves exactly as no delimiter |
| `InputEngine.RoundTripDefault` | input_engine.py:10-40 | for a non-empty username without edge whitespace and without `:`, and a non-empty password without edge whitespace, the line `u + ":" + p` parses back to `(u, p)` |
| `InputEngine.RoundTripExplicit` | input_engine.py:17-40 | the same round trip with an explicit delimiter `d`, provided no occurrence of `d` starts inside `u` |
| `InputEngine.RoundTrip` | input_engine.py:10-34 | the joined line is its own `strip()`, it splits at `d` into `[u, p]`, and both halves are their own `strip()` |
| `InputEngine.FilterMapAppend` | input_engine.py:9-40 | skipping the `None`s and collecting the values distributes over concatenation of the input |
| `InputEngine.FilterMapOrigin` | input_engine.py:9-40 | the output comes from a strictly increasing list of input positions, holding exactly those positions that yield a value, with the values in that order |
| `InputEngine.FilterMapBound` | input_engine.py:9-40 | at most one output per input element |
| `InputEngine.ParsedLinesAppend` | input_engine.py:9-40 | the pairs of two blocks of lines are the pairs of the first followed by the pairs of the second |
| `InputEngine.ParsedLinesOrigin` | input_engine.py:9-40 | the output keeps the input line order, has one pair per line that parses and none for any other line, and each pair is what its line yields |
| `InputEngine.ParsedLinesBound` | input_engine.py:9-40 | there are at most as many pairs as lines |
| `InputEngine.ParsedLinesClean` | input_engine.py:33-40 | every produced pair has a non-empty username and password, neither with whitespace at its ends |
| `InputEngine.BlankLinesContributeNothing` | input_engine.py:12-14 | inserting a blank line anywhere leaves the output unchanged |

## Left out

- `Calibrator.run_calibration` (login_detector.py:21-66) sends HTTP POSTs and sleeps between them. The model takes the resulting responses as its input. Its list of sentinel credentials has five entries, so `num_attempts > 5` would raise an `IndexError` at line 42. That error is not modelled.
- The request in `test_credential` (login_detector.py:144-148) is I/O. The `response` object in the returned tuple is reduced to the `Verdict`.
- `print_result` (login_detector.py:175-183) and the progress printing inside `analyze` are console output.
- The `Reason` values stand for the formatted f-strings. The text formatting is not modelled.
- `PatternAnalyzer.analyze` stores its result in `self.pattern`, and `get_pattern` returns that field. This storage is not modelled as state. `Analyze` returns the pattern directly, and the scoring takes it as an argument.
- The `LoginDetector` constructor (login_detector.py:117-130) copies the calibrator's session, login URL and two field names, and takes the analyzer's pattern once, by calling `get_pattern()` when the detector is built. `analyze` later gives `self.pattern` a new dict (line 98) instead of filling the old one. So a detector built before `analyze` runs keeps `{}`, and each of its `test_credential` calls raises `KeyError`, even after `analyze` has run. The model leaves this out because every caller runs `analyze` before building the detector (credential_checker.py:24-27, login_detector.py:193-196).
- The `InputEngine` constructor only stores its two arguments. It is not modelled.
- Opening the file, its encoding with `errors='ignore'`, and the `FileNotFoundError` path (input_engine.py:8, 41-43) are file I/O. `LoadCredentials` takes the lines as a sequence.
- The generator is lazy. `LoadCredentials` returns the whole output at once, so the interleaving of reading and consuming is not modelled.
- `Text.Strip`: Python's `strip()` also removes non-ASCII whitespace, such as U+0085, U+00A0 and U+2028. The model covers only the ASCII part of `str.isspace()`, because the rest needs the Unicode character database.
- `threaded_checker.py`, `easy_checker.py`, `credential_checker.py` and `request_architect.py` are not part of this model. They hold a thread pool, a queue with a timeout-driven shutdown, a lock, sleeps and file appends, a driver loop around network calls, and the HTTP session setup. All of these are concurrency or I/O.
- A warning for a signature that cannot discriminate anything is not modelled, because the code does not emit one.
- Scoring the same response twice gives the same verdict. This is immediate for the function `Judge`, so no lemma states it.
- The `__main__` demonstration blocks are not modelled.
