# grindAI mail classifier: reply parsing and message selection

This project models two pieces of a command-line tool. The tool reads job-application e-mail from
Gmail and asks a language model to classify each message. The two pieces are:

- **`parse_response_content`** (jsonparse_debug.py) turns the model's text reply into a record.
  It works in three tiers, and the first one that succeeds wins:
  1. Strip the reply with `str.strip()` and read it with `json.loads`.
  2. If that raises, take the span that `re.search(r'\{.*\}', text, re.DOTALL)` finds, which runs
     from the first `{` to the last `}`, and read that span with `json.loads`.
  3. If that fails too, return the fixed record
     `{"classification": "Error", "company": "Unknown", "position": "Unknown"}`.
- **The message selection rules** of `GmailService` (gmail_service.py):
  - The subject is the first header named exactly `Subject`, or `"No Subject"` when there is none.
  - The body data comes from the payload's own body when the message has no parts. Otherwise it
    comes from the first `text/plain` part, else from the last `text/html` part, else it is empty.
  - Data that is not empty is decoded. A decoding failure becomes `"[Error decoding email body]"`.

Modules:

- `PyText` (py_text.dfy): Python's `str.strip()`.
- `Json` (json.dfy): `json.loads` on a `str`, as a recursive-descent reader.
  - It follows the order of checks of CPython's scanner.
  - It accepts RFC 8259 plus Python's `NaN`, `Infinity` and `-Infinity`.
  - Objects become dicts: a repeated key keeps its first position and takes its last value.
- `JsonText` (json_text.dfy):
  - a writer for JSON text, with a `Layout` that sets the whitespace inside brackets and after `:`
    and `,`;
  - the proof that `json.loads` reads every written value back.
- `ResponseParser` (response_parser.dfy): the three tiers, the regular-expression span, and what
  they promise.
- `ResponseExamples` (response_examples.dfy): the six replies listed in jsonparse_debug.py, each
  with the value it yields.
- `GmailService` (gmail_service.dfy):
  - the subject rule;
  - a reference definition of the part selection;
  - `GetEmailBody`, the loop with its `break`, proved against that definition.

The code and the written description of the system disagree on one point. The description says
a parsed object is coerced into a classification record, with missing `company` or `position`
filled with `"Unknown"`. The code does not do this: `parse_response_content` returns whatever
`json.loads` returns, which may be a list, a number or an object with other keys. The model
follows the code. `ParseResponseContent` and `RoundTrip` state this for every well-formed value.

## Model

| member | source | states |
|---|---|---|
| PyText.TrimStart | jsonparse_debug.py:17 | the result is a suffix of the input, everything dropped is space, and the result does not start with space |
| PyText.TrimEnd | jsonparse_debug.py:17 | the result is a prefix of the input, everything dropped is space, and the result does not end with space |
| PyText.Strip | jsonparse_debug.py:17 | the stripped text neither starts nor ends with a character `str.isspace()` accepts |
| PyText.StripIsSlice | jsonparse_debug.py:17 | the stripped text is the slice of the input that lies between a leading run and a trailing run of space characters |
| PyText.StripPadded | jsonparse_debug.py:17 | adding space characters on either side never changes the stripped text |
| PyText.StripUnpadded | jsonparse_debug.py:17 | a text that has no space at either end is its own strip |
| Json.Lookup | jsonparse_debug.py:22 | a dict lookup fails exactly when the key is not among the dict's keys |
| Json.Put | jsonparse_debug.py:22 | dict assignment keeps keys distinct; an existing key keeps its position; a new key is appended |
| Json.PutLookup | jsonparse_debug.py:22 | after `d[key] = v`, `key` maps to `v` and every other key maps to what it mapped to before |
| Json.ToDict | jsonparse_debug.py:22 | the dict built from an object's members has distinct keys |
| Json.ToDictLastWins | jsonparse_debug.py:22 | when an object repeats a key, the dict `json.loads` builds holds the last value given for it |
| Json.ToDictOfDistinct | jsonparse_debug.py:22 | an object whose keys are all distinct becomes a dict with its members unchanged and in order |
| JsonText.LoadsSerialized | jsonparse_debug.py:22 | `json.loads` reads the text of every well-formed value back as that value, for every whitespace layout |
| ResponseParser.Sentinel | jsonparse_debug.py:42 | the fallback record is an object with exactly the keys classification, company and position, in that order |
| ResponseParser.FirstIndex | jsonparse_debug.py:30 | the first `{`: absent exactly when no character is `{`, and otherwise no `{` comes before it |
| ResponseParser.LastIndex | jsonparse_debug.py:30 | the last `}`: absent exactly when no character is `}`, and otherwise no `}` comes after it |
| ResponseParser.BraceSpan | jsonparse_debug.py:30 | the span found starts with `{`, ends with a later `}`, and lies inside the text |
| ResponseParser.BraceSpanIsSearch | jsonparse_debug.py:30-31 | there is a span exactly when `\{.*\}` matches somewhere; the span starts no later and ends no earlier than any match (`re.search`'s leftmost, greedy match) |
| ResponseParser.SearchSpanUnique | jsonparse_debug.py:30 | a match that is leftmost and reaches furthest right is the span found |
| ResponseParser.SalvageCandidate | jsonparse_debug.py:30-32 | the salvaged text starts with `{`, ends with `}`, and is a contiguous piece of the stripped reply; it is absent exactly when nothing matches |
| ResponseParser.ParseResponseContent | jsonparse_debug.py:4-42 | a reply that parses after stripping is returned as parsed, with no coercion; any other result is the sentinel or the parse of a slice of the stripped reply; every reading failure the model has (a `JSONDecodeError`) ends in a returned value |
| ResponseParser.SalvageTier | jsonparse_debug.py:30-37 | when the strict parse fails and the found span parses as `v`, the result is `v` |
| ResponseParser.WhitespaceInvariant | jsonparse_debug.py:17 | space around the reply never changes the result |
| ResponseParser.SalvageReadsSearchMatch | jsonparse_debug.py:25-42 | when the strict parse fails, the result is the parse of the leftmost, greedy `{…}` match, or the sentinel when that parse fails |
| ResponseParser.NoMatchSentinel | jsonparse_debug.py:30-42 | when the strict parse fails and no `{` is followed by a `}`, the result is the sentinel |
| ResponseParser.LoadsRejectsLeadingChar | jsonparse_debug.py:22 | `json.loads` fails on a text whose first character is neither whitespace nor the start of a value |
| ResponseParser.LoadsRejectsUnclosedObject | jsonparse_debug.py:22 | `json.loads` fails on a text that opens an object and contains no `}` |
| ResponseParser.LoadsRejectsScalarBeforeBrace | jsonparse_debug.py:22 | `json.loads` fails on a text that starts with neither whitespace nor `"`, `{` or `[` and has a `{` further on: the leading token ends before that `{`, which is extra data |
| ResponseParser.LoadsRejectsObjectThenProse | jsonparse_debug.py:22 | `json.loads` fails on an object followed by text that has no `}` and does not end in whitespace |
| ResponseParser.WrappedStrictFails | jsonparse_debug.py:20-26 | with prose on either side of a braced text, as `WrappedRecovered` allows it, the strict tier fails |
| ResponseParser.UnclosedObjectSentinel | jsonparse_debug.py:20-42 | a reply that opens an object and never closes it yields the sentinel |
| ResponseParser.ProseSentinel | jsonparse_debug.py:20-42 | a reply that cannot start a JSON value and contains no `{` yields the sentinel |
| ResponseParser.SerializedEnd | jsonparse_debug.py:17 | the text of a value never ends with a space character, so stripping leaves it intact |
| ResponseParser.RoundTrip | jsonparse_debug.py:17-24 | the text of any well-formed value, with any space around it, is read back as that value by the strict tier |
| ResponseParser.WrappedSpan | jsonparse_debug.py:30 | for a text wrapped in prose that has no `{` before it and no `}` after it, the span found is exactly that text |
| ResponseParser.WrappedRecovered | jsonparse_debug.py:17-37 | a braced text with prose before and/or after it is recovered as whatever it parses to, when the prose before has no `{` and does not start with `"` or `[`, and the prose after has no `}`; with prose on either side the strict tier fails and the salvage tier reads exactly the braced text |
| ResponseParser.ProseWrappedRecovered | jsonparse_debug.py:17-37 | a written object with prose before and/or after it (a code fence, "Note: …", "… thanks") is recovered exactly, when the prose before has no `{` and does not start with `"` or `[`, and the prose after has no `}` |
| ResponseExamples.RecordText | jsonparse_debug.py:49-57 | the text of a three-field record is its tokens in order, with the layout's spacing |
| ResponseExamples.Reply1Parsed | jsonparse_debug.py:49 | the first reply yields its record through the strict tier |
| ResponseExamples.Reply2Parsed | jsonparse_debug.py:52 | the second reply, padded with spaces, yields its record through the strict tier |
| ResponseExamples.Reply3Parsed | jsonparse_debug.py:54 | the compact third reply yields its record through the strict tier |
| ResponseExamples.Reply4Parsed | jsonparse_debug.py:57 | the fenced fourth reply yields its record through the salvage tier |
| ResponseExamples.Reply5Parsed | jsonparse_debug.py:60 | the truncated fifth reply yields the sentinel |
| ResponseExamples.Reply6Parsed | jsonparse_debug.py:63 | the prose sixth reply yields the sentinel |
| GmailService.Subject | gmail_service.py:44-46 | the value of the first header named exactly `Subject`, or "No Subject" when no header has that name |
| GmailService.PayloadSubject | gmail_service.py:41-46 | the subject of a payload is the value of its first header named exactly `Subject`; a payload with no such header, or with no `headers` key at all, has the subject "No Subject" |
| GmailService.SubjectIgnoresLater | gmail_service.py:44-46 | headers after the first `Subject` header never change the subject |
| GmailService.SubjectIgnoresOthers | gmail_service.py:44-46 | a header with another name never changes the subject, wherever it stands |
| GmailService.FirstOfType | gmail_service.py:82-86 | the first part of a MIME type: absent exactly when no part has it, and otherwise no earlier part has it |
| GmailService.LastOfType | gmail_service.py:87-88 | the last part of a MIME type: absent exactly when no part has it, and otherwise no later part has it |
| GmailService.SelectedData | gmail_service.py:76-88 | with no parts, the payload's own body data; else the first `text/plain` part's data, even when empty or preceded by HTML; else the last `text/html` part's data; else "" |
| GmailService.LaterPartsIgnored | gmail_service.py:84-86 | parts after the first `text/plain` part never change the selection |
| GmailService.InsertKeepsFirst | gmail_service.py:82-86 | inserting a part of another MIME type anywhere keeps which part is the first of a type |
| GmailService.InsertKeepsLast | gmail_service.py:87-88 | inserting a part of another MIME type anywhere keeps which part is the last of a type |
| GmailService.OtherPartIgnored | gmail_service.py:82-88 | a part of any other MIME type, inserted anywhere among the parts, never changes the selection |
| GmailService.GetEmailBody | gmail_service.py:63-98 | the loop selects exactly `SelectedData`; empty data is returned as "" without decoding; a decode failure gives "[Error decoding email body]"; otherwise the result is the decoded data |

## Left out

- `GmailService.authenticate` (gmail_service.py:100-131) is not modelled. It runs the OAuth flow and reads and writes `token.json`.
- The Gmail API calls in `fetch_emails` (gmail_service.py:33, 39), the list they build, and the logging and re-raise (gmail_service.py:57-61) are not modelled.
- The base64url and UTF-8 decoding (gmail_service.py:93) is a parameter `decode`. It returns `None` where the library would raise. Its leniency and the `errors="replace"` mapping are library internals.
- `GmailService.GetEmailBody`: the error is reported through `log_error` in the source. Logging is not modelled.
- `GmailService.Subject`: a header without a `name` or `value` key raises `KeyError` in the source. Headers are modelled as always having both.
- Payload values of the wrong type are not modelled. An example is a `data` key holding `null`. Every present value is a string, a dict or a list of the expected shape.
- Parts nested inside parts are not modelled, because the source does not look inside them either.
- The `print` diagnostics of the parser (jsonparse_debug.py:23, 26, 29, 33, 36, 39) and its `__main__` loop (jsonparse_debug.py:66-69) are output only. The six replies of that loop are modelled in `ResponseExamples`.
- `ResponseParser.ParseResponseContent`: the source catches only `json.JSONDecodeError` (jsonparse_debug.py:25, 38), so two other errors of `json.loads` escape it, and the model returns a value for both inputs. Arrays or objects nested deeper than the interpreter's recursion limit raise `RecursionError`; the model has no depth limit. An integer literal of more than 4300 digits raises `ValueError` on Python versions that limit int-string conversion; the model keeps numbers as text. So `parse_response_content` does not return a value for every string, and the model does not capture these two escapes.
- `Json.Loads` keeps a number as the text of its token. Its float or integer value is not computed.
- `Json.Loads` cannot represent a `\uD800`-style escape that leaves a lone surrogate, because a Dafny `char` is a Unicode scalar value. Such a text reads as a failure here, but Python accepts it.
- `JsonText.Serialize` is a writer used to state round trips. It is not `json.dumps`: it never writes `\u` escapes above U+001F, and numbers are written as their token.
- openai_service.py, debug_openai.py, main.py and utils.py are not part of this model. They hold the network call, the prompts, the orchestration and the logging.
- The record store and the `Other` filter are not part of this model. No code for them appears in the files modelled.
