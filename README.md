# Add_Mac_ISE — a verified model of the MAC enrollment script

`Add_Mac_ISE.py` adds MAC addresses, read from a text file, to a Cisco ISE
endpoint identity group through the ERS REST API. It normalises each line
into a colon-separated MAC address (`format_mac`), asks the operator to
confirm, creates the group or, if it already exists and the operator agrees,
looks up its id (`create_group`, `get_group_id`), then submits one endpoint
per MAC (`add_mac`), keeping the MACs the service accepted in `mac_success`
and the others in `mac_error`.

The model has three modules:

- `MacFormat` (`mac_format.dfy`): `format_mac` as functions over strings, the
  `str.strip()` applied to every line, and lemmas about the result's shape,
  what it keeps of the input, and idempotence.
- `GroupResolution` (`group_resolution.dfy`): Python's `str.split` and the
  group id taken from the `Location` header, `get_group_id`'s choice of
  result, `create_group`'s branches, and the `S`/`s` confirmation test.
- `Enrollment` (`enrollment.dfy`): the read loop and `add_mac` as methods of a
  class `Session` holding the script's global lists `mac_list`,
  `mac_success` and `mac_error`. Each method is proved against
  specification functions (`Formatted`, `Rejected`, `Accepted`, `Refused`),
  and lemmas about those functions state what the loops promise. `RunScript`
  is the whole run.

The ERS service and the operator are inputs. A creation response is a status
code, a `Location` string and a body text. A lookup response is a status
code and the optional list of resource ids. Each endpoint request gets one
answer, a status code and whether its body can be read, given as a sequence
in request order. The operator's answers
are strings.

Decisions that follow the code:

- Letters keep their case: `"AA-BB-CC-DD-EE-FF"` becomes
  `"AA:BB:CC:DD:EE:FF"` (`FormatMacKeepsCase`), because line 103 keeps `c`
  and never lowercases it.
- A confirmed reuse whose lookup finds nothing does not stop the run.
  `get_group_id` returns `None`, `create_group` returns it, and the script
  submits every MAC with that id. `Reused(None)` carries this case, and
  `RunScript` goes on to `AddMac`.
- A refused endpoint request whose body cannot be read ends the script.
  Line 79 reads the error message before line 81 records the MAC. The
  parser raises on a body that is not well-formed XML (line 114) and on a
  title without text (line 117), and nothing catches either. That MAC is in
  neither list, no later MAC is sent and the counts of line 153 are never
  printed. `AddMac` stops there, and `RunScript` ends with `AddMacAborted`.
- The id is `split("/endpointgroup/")[-1]`, and Python splits left to right
  on non-overlapping occurrences. The marker can overlap itself by its
  closing `/`. So the id is not always the text after the last occurrence:
  `"/endpointgroup/endpointgroup/x"` yields `"endpointgroup/x"`
  (`LocationIdOverlap`). `LocationIdSuffix` states what always holds.

## Model

| member | source | states |
|---|---|---|
| `MacFormat.IsHexDigit` | Add_Mac_ISE.py:103 | the characters the cleaning keeps, on ASCII: the digits 0-9 and the letters a-f in either case |
| `MacFormat.Filter` | Add_Mac_ISE.py:103 | the cleaned string is no longer than the input and every character in it passes the filter |
| `MacFormat.FilterSubMultiset` | Add_Mac_ISE.py:103 | every kept character comes from the input, and no more often than it occurs there |
| `MacFormat.FilterKeepsPassing` | Add_Mac_ISE.py:103 | every character of the input that passes the filter is kept |
| `MacFormat.FilterAppend` | Add_Mac_ISE.py:103 | the cleaning handles the input character by character: filtering a concatenation filters each part |
| `MacFormat.JoinPairs` | Add_Mac_ISE.py:110 | joining n > 0 characters in pairs gives n + (n - 1) / 2 characters, so 12 digits give 17 |
| `MacFormat.JoinPairsAt` | Add_Mac_ISE.py:110 | in the joined string, position k is ':' when k % 3 == 2 and otherwise digit k - k / 3 of the input |
| `MacFormat.FilterJoinPairs` | Add_Mac_ISE.py:110 | a filter that drops ':' sees the same characters before and after the join |
| `MacFormat.FormatMac` | Add_Mac_ISE.py:101-111 | format_mac succeeds exactly when the input holds 12 hexadecimal digits; otherwise the error names the input |
| `MacFormat.FormatMacOutput` | Add_Mac_ISE.py:103-110 | on success the result has 17 characters, ':' at 2, 5, 8, 11 and 14, a hex digit elsewhere; deleting the ':' gives the input's hex digits in order and case |
| `MacFormat.CanonicalIsFixedPoint` | Add_Mac_ISE.py:101-111 | every string of that shape is returned unchanged, so format_mac's outputs are exactly the canonical strings |
| `MacFormat.FormatMacIdempotent` | Add_Mac_ISE.py:101-111 | formatting format_mac's own output succeeds and returns the same string |
| `MacFormat.FormatMacIgnoresSeparator` | Add_Mac_ISE.py:103-110 | a canonical address written with any non-hex separator formats back to itself, case unchanged |
| `MacFormat.FormatMacKeepsCase` | Add_Mac_ISE.py:103 | "AA-BB-CC-DD-EE-FF" formats to "AA:BB:CC:DD:EE:FF", not to lower case |
| `MacFormat.FormatMacRejectsShort` | Add_Mac_ISE.py:106-107 | "1234" is rejected with the ValueError naming it |
| `MacFormat.StripLeading` | Add_Mac_ISE.py:129 | the front half of str.strip: drop whitespace from the front, one character at a time; StripLeadingSpec states the result |
| `MacFormat.StripTrailing` | Add_Mac_ISE.py:129 | the back half of str.strip: drop whitespace from the back, one character at a time; StripTrailingSpec states the result |
| `MacFormat.Strip` | Add_Mac_ISE.py:129 | str.strip as lstrip followed by rstrip; StripSpec states the result |
| `MacFormat.StripLeadingSpec` | Add_Mac_ISE.py:129 | lstrip removes a run of leading whitespace and stops at the first other character |
| `MacFormat.StripTrailingSpec` | Add_Mac_ISE.py:129 | rstrip removes a run of trailing whitespace and stops at the last other character |
| `MacFormat.StripIsSlice` | Add_Mac_ISE.py:129 | strip keeps exactly the part of the line between what lstrip and rstrip cut, and both cut parts are whitespace |
| `MacFormat.StripSpec` | Add_Mac_ISE.py:129 | strip returns a slice of the line, cut only at whitespace, that neither starts nor ends with whitespace |
| `MacFormat.StripKeepsHexDigits` | Add_Mac_ISE.py:129-131 | stripping a line never changes the hexadecimal digits format_mac keeps |
| `MacFormat.FormatMacAsWritten` | Add_Mac_ISE.py:101-111 | format_mac with the filter as written (str.isdigit) succeeds exactly when 12 characters pass that filter |
| `MacFormat.AsWrittenAgreesOnAscii` | Add_Mac_ISE.py:103 | on ASCII input the filter as written and the ASCII hex filter give the same result |
| `MacFormat.AsWrittenAcceptsSuperscripts` | Add_Mac_ISE.py:103 | ten hex digits followed by superscript two and three pass the filter as written, give a non-canonical result, and fail the ASCII filter |
| `MacFormat.AsWrittenExample` | Add_Mac_ISE.py:103 | the line "AABBCCDDEE²³" is such an input |
| `GroupResolution.Contains` | Add_Mac_ISE.py:43 | Python's `in` on strings, as a left-to-right scan, holds exactly when the text occurs at some position |
| `GroupResolution.Split` | Add_Mac_ISE.py:41 | str.split always returns at least one piece |
| `GroupResolution.SplitFromJoin` | Add_Mac_ISE.py:41 | joining the pieces with the separator gives the split string back |
| `GroupResolution.SplitFromPiecesFree` | Add_Mac_ISE.py:41 | no piece of a split contains the separator |
| `GroupResolution.SplitFromOfFree` | Add_Mac_ISE.py:41 | a string without the separator splits into itself alone |
| `GroupResolution.SplitFromSkip` | Add_Mac_ISE.py:41 | positions where no occurrence starts are read into the current piece |
| `GroupResolution.SplitHeader` | Add_Mac_ISE.py:41 | the pieces of the Location header join back to it and none holds "/endpointgroup/" |
| `GroupResolution.LocationId` | Add_Mac_ISE.py:41 | the group id is the last piece of the Location header split on "/endpointgroup/"; LocationIdSuffix, LocationIdOfHeader and LocationIdOverlap state what that piece is |
| `GroupResolution.LocationIdSuffix` | Add_Mac_ISE.py:40-41 | the id is a marker-free suffix of the header: the whole header when it has no marker, otherwise directly preceded by the marker |
| `GroupResolution.LocationIdOfHeader` | Add_Mac_ISE.py:40-41 | for prefix + "/endpointgroup/" + id with no '/' in id and no earlier marker, the id is returned exactly |
| `GroupResolution.LocationIdOverlap` | Add_Mac_ISE.py:41 | with overlapping markers the split keeps the longer tail: "/endpointgroup/endpointgroup/x" gives "endpointgroup/x" |
| `GroupResolution.GetGroupId` | Add_Mac_ISE.py:92-98 | an id is returned exactly when the status is 200 and the resource list is present and non-empty, and it is the first resource's id; otherwise None |
| `GroupResolution.IsConfirmed` | Add_Mac_ISE.py:46 | an answer confirms exactly when it is one of "S" and "s", the test create_group and the script (line 144) both apply |
| `GroupResolution.CreateGroup` | Add_Mac_ISE.py:39-54 | 201 returns the Location id even if the body says "already exists"; otherwise "already exists" with S or s returns the lookup's result, with any other answer it stops; any other failure stops with the body |
| `GroupResolution.CreateGroupOutcomes` | Add_Mac_ISE.py:39-54 | the script passes create_group exactly after a 201 or a confirmed "already exists"; the lookup matters only on the reuse path; a created id is a marker-free suffix of the Location header |
| `Enrollment.FormatLine` | Add_Mac_ISE.py:129-131 | what the read loop does with one line: format_mac applied to the stripped line |
| `Enrollment.FormatLineIgnoresWhitespace` | Add_Mac_ISE.py:129-131 | a line formats exactly when its unstripped text would, to the same address; a failure reports the stripped line |
| `Enrollment.Formatted` | Add_Mac_ISE.py:127-134 | the read loop keeps at most one address per line |
| `Enrollment.Rejected` | Add_Mac_ISE.py:133-134 | the read loop reports at most one line per line read |
| `Enrollment.LinesStep` | Add_Mac_ISE.py:128-134 | one step of the read loop appends what the current line contributes and nothing else |
| `Enrollment.FormattedAppend` | Add_Mac_ISE.py:127-134 | the result for a file is the concatenation of the results for its parts, so a failing line never stops the lines after it |
| `Enrollment.FormattedOrRejected` | Add_Mac_ISE.py:130-134 | every line is either added to mac_list or reported, never both and never neither |
| `Enrollment.FormattedMember` | Add_Mac_ISE.py:127-134 | a MAC is in mac_list exactly when some line of the file formats to it |
| `Enrollment.FormattedAllLines` | Add_Mac_ISE.py:127-134 | when every line formats, mac_list has one entry per line in file order, duplicates kept |
| `Enrollment.FormattedCanonical` | Add_Mac_ISE.py:131-132 | every entry of mac_list is a canonical MAC address |
| `Enrollment.Completed` | Add_Mac_ISE.py:74-81 | add_mac completes exactly the requests before the first refusal whose error body cannot be read (not well-formed XML, or a title without text), or all of them |
| `Enrollment.Accepted` | Add_Mac_ISE.py:75-77 | the success list holds at most one entry per submitted MAC |
| `Enrollment.Refused` | Add_Mac_ISE.py:78-81 | the error list holds at most one entry per submitted MAC |
| `Enrollment.CountCreated` | Add_Mac_ISE.py:153 | the number of 201 answers is at most the number of requests |
| `Enrollment.AccountingAppend` | Add_Mac_ISE.py:65-81 | completed requests are handled one at a time: the accounting of a run of them is that of its first part followed by that of the rest |
| `Enrollment.AccountingStep` | Add_Mac_ISE.py:75-81 | one step of add_mac appends the current MAC to mac_success on 201 and to mac_error otherwise, and nothing else |
| `Enrollment.AccountingPrefix` | Add_Mac_ISE.py:65-81 | a run that ends early has recorded a prefix of what a run completing every request records in each list |
| `Enrollment.AccountingCounts` | Add_Mac_ISE.py:65-81 | with M answers of 201 among N requests, mac_success gains M entries and mac_error N - M |
| `Enrollment.AccountingPartition` | Add_Mac_ISE.py:65-81 | the two lists together hold every submitted MAC exactly as often as it was submitted |
| `Enrollment.AccountingAt` | Add_Mac_ISE.py:75-81 | the i-th MAC is in mac_success when its answer was 201 and in mac_error otherwise |
| `Enrollment.Session.constructor` | Add_Mac_ISE.py:21-22 | the script starts with mac_list, mac_success and mac_error empty |
| `Enrollment.Session.ReadMacs` | Add_Mac_ISE.py:127-134 | the read loop appends Formatted(lines) to mac_list and reports Rejected(lines) |
| `Enrollment.Session.AddMac` | Add_Mac_ISE.py:57-81 | add_mac appends Accepted and Refused of the completed requests to mac_success and mac_error, one entry per completed request; it reports an abort exactly when a refusal's body cannot be read, and then that MAC and every later one are in neither list |
| `Enrollment.GroupIdOf` | Add_Mac_ISE.py:148-151 | the id add_mac receives is the created group's id or the lookup's result |
| `Enrollment.RunScript` | Add_Mac_ISE.py:121-153 | without S or s nothing is submitted; a stop in create_group submits nothing; otherwise the MACs of mac_list are submitted in order, and either a refusal whose body cannot be read ends the run at that MAC, or every MAC is submitted once and the printed counts are the 201 count and the rest |

## Left out

- HTTP: `requests.post`/`requests.get`, Basic authentication, `verify=False` and the TLS warning filter (lines 8-18, 37, 74, 91). The responses are inputs.
- The XML request bodies (lines 32-35, 66-72) and the lookup URL with its unescaped filter (line 85). The group id and the description reach only these payloads, so `AddMac` takes no group id.
- The XML parsing in `extract_error_message_from_xml` (lines 113-119) and `response.json()` (line 93). They use libraries that are not part of this model. The error message is only printed. Whether a refusal's body can be read (well-formed XML whose title, if present, has text) is an input flag on each endpoint answer.
- `input()`, `print()`, `exit()` and `open()` (lines 123-163). Answers and file lines are parameters, and a stop is an outcome value. The prompts that only decide whether the lists are printed (lines 155-163) are not modelled.
- A 201 response without a `Location` header. The code fails on `None.split` there, and the model takes the header as a string.
- A lookup body whose `resources` is not a list, or whose first entry has no `id`. The model takes `resources` as an optional list of ids.
- Unicode: the hex filter, `IsSpace` and `Strip` are ASCII. Python's `str.isdigit`, `str.lower` and `str.strip` also act on other characters. `FormatMacAsWritten` lists three non-ASCII digits, enough to show the finding below, not all of them.
- Endpoint responses are a sequence with one answer per MAC, each a status and the readable-body flag. `AddMac` and `RunScript` therefore require as many answers as MACs; answers after the one that ends the run are never consulted.

## Findings

| source | as written | input that shows it | evidently intended | confidence | as-written member | corrected member |
|---|---|---|---|---|---|---|
| Add_Mac_ISE.py:103 | the cleaning keeps every character for which `str.isdigit()` holds, which includes non-ASCII digits such as superscript two and three | the line `AABBCCDDEE²³` is accepted as `AA:BB:CC:DD:EE:²³`, which is not a MAC address | keep only the hexadecimal digits 0-9, a-f, A-F, as the comment on line 102 says | high; not executed | `MacFormat.AsWrittenAcceptsSuperscripts` | `MacFormat.FormatMacOutput` |
