# Cloudflare status monitor — a Dafny model of its decision logic

The monitor polls the Cloudflare status page's component list and watches a fixed set of target
locations, such as "jakarta" and "singapore". It maps each target to a component whose name
contains it, and it posts a Slack message whenever a target's status differs from the one last
seen. This project models the parts of `cloudflare_monitor.py` that make decisions:

- **Target list** (`Config`). `TARGET_LOCATIONS` is split on commas. Each piece is stripped and lower-cased, and blank pieces are dropped. The default is `"jakarta,singapore"`.
- **Matcher** (`Matcher`). `find_matching_components` runs an outer loop over components and an inner loop over the cleaned targets, with a `break`. It is modelled as a method with the same nested loops. The method is proved equal to the fold `MatchAll`, and the lemmas describe that fold. The result is a Python dict, so `OrderedDict` models it as a map plus the keys in first-insertion order. That order is the order in which `current_matches.items()` is later visited.
- **One poll cycle** (`Monitor`). The class `Monitor.Monitor` holds `TARGET_LOCATIONS`, `SLACK_WEBHOOK_URL` and the mutable `last_statuses` map. `ProcessCycle` runs one pass of `main`'s loop body:
  - an empty fetch changes nothing;
  - otherwise it reports the targets that were not found, raises an alert for every matched target whose status changed, and records the new status.
  - Its new state, alerts and not-found list are proved equal to the function `Cycle`, and its webhook posts equal to `Outbox` of those alerts. The lemmas about `Cycle` state what one cycle guarantees.
- **Alert formatting** (`Notifier`). The label, emoji and colour lookups and the Slack payload of `send_slack_alert`. The function returns the request it would post, or nothing when no webhook is set. A request records the webhook, the alert and the time; its JSON body is `BuildPayload` of the alert and the time.
- `AsciiText` holds the Python string operations the code relies on, restricted to ASCII: `strip`, `lower`, `title`, `split` and `in` on strings. `Wrappers` holds `Option`, which stands for Python's `None`.

## Notes on the code

- **Match winner.** The comment "first match is enough" (line 133) is about the `break` out of the target loop: each component takes the first target, in target order, that occurs in its lower-cased name. A later component that picks the same target overwrites the earlier entry (line 129), so a target keeps the **last** component that picks it. `Matcher.MatchAllLastWins` states this, and `Matcher.LaterComponentOverwrites` shows it on two components.
- **State.** The code keeps `last_statuses` in memory only (line 46): it starts empty and lives as long as the process.

## Model

| member | source | states |
|---|---|---|
| AsciiText.TrimLeftSpec | cloudflare_monitor.py:16 | the result is a suffix of the input, everything dropped before it is whitespace, and it does not start with whitespace |
| AsciiText.TrimRightSpec | cloudflare_monitor.py:16 | the result is a prefix of the input, everything dropped after it is whitespace, and it does not end with whitespace |
| AsciiText.Trim | cloudflare_monitor.py:16 | `strip()` leaves a string with no surrounding whitespace, no longer than the input |
| AsciiText.TrimOfTrimmed | cloudflare_monitor.py:155 | `strip()` of an already stripped string is that string |
| AsciiText.TrimIsSlice | cloudflare_monitor.py:16-18 | `strip()` keeps one contiguous slice of the input, and whatever it drops on either side is whitespace |
| AsciiText.Split | cloudflare_monitor.py:17 | `split(",")` gives at least one piece, no piece contains the separator, and joining the pieces with the separator gives the input back |
| AsciiText.SplitJoin | cloudflare_monitor.py:17 | the reverse round trip: pieces without the separator are recovered by splitting their join |
| AsciiText.ContainsIffOccurs | cloudflare_monitor.py:128 | `target in name_lower` is true exactly when the target occurs at some position of the name |
| AsciiText.EmptyContained | cloudflare_monitor.py:128 | the empty string is contained in every name; parsed targets are never empty, so this covers only a direct call of the matcher with a blank target, which then matches every component |
| AsciiText.LowerIsLowerCase | cloudflare_monitor.py:16 | `lower()` leaves no upper-case letter and is idempotent |
| AsciiText.LowerOfLowerCase | cloudflare_monitor.py:155 | `lower()` of a lower-case string is that string |
| AsciiText.LowerKeepsTrimmed | cloudflare_monitor.py:16 | lower-casing a stripped string leaves it stripped |
| AsciiText.TitleKeepsLower | cloudflare_monitor.py:84 | `title()` changes only the case of letters: lower-casing a title-cased string gives the lower-cased original |
| AsciiText.TitleCaseRoundTrip | cloudflare_monitor.py:84 | title-casing a lower-case name and lower-casing it again gives the name back |
| Config.CleanTarget | cloudflare_monitor.py:16 | a normalised name has no surrounding whitespace and no upper case, and it is empty exactly when the stripped piece is |
| Config.CleanKeepsOutSeparator | cloudflare_monitor.py:16-17 | cleaning a piece of the split cannot bring a comma into it |
| Config.KeepTargetsWellFormed | cloudflare_monitor.py:16 | kept pieces are non-empty, stripped, lower case and free of commas when the pieces are free of commas |
| Config.ParsedTargetsWellFormed | cloudflare_monitor.py:15-19 | every parsed target is non-empty, stripped, lower case and free of commas |
| Config.KeepTargetsMembers | cloudflare_monitor.py:15-19 | a name is in the list exactly when it is the cleaned form of some non-blank piece |
| Config.ParsedTargetsExact | cloudflare_monitor.py:15-19 | the same, for the pieces of the raw setting: the parsed list holds exactly the cleaned non-blank pieces |
| Config.KeepTargetsAppend | cloudflare_monitor.py:15-19 | the comprehension keeps the order of the pieces: it distributes over concatenation |
| Config.ParseTargetsConcat | cloudflare_monitor.py:15-19 | the targets of `a,b` are the targets of `a` followed by those of `b` |
| Config.KeepWellFormed | cloudflare_monitor.py:15-19 | a list of already well-formed names passes through the comprehension unchanged |
| Config.ParseTwo | cloudflare_monitor.py:15-19 | two well-formed names joined by one comma parse to exactly those two names |
| Config.DefaultTargetLocations | cloudflare_monitor.py:17 | with the variable unset, the targets are exactly `["jakarta", "singapore"]` |
| Config.CleanIdempotent | cloudflare_monitor.py:119 | cleaning a cleaned name changes nothing |
| Config.RecleanParsed | cloudflare_monitor.py:155 | the second `strip().lower()` applied to the configured targets (lines 119 and 155) is a no-op |
| OrderedDict.Empty | cloudflare_monitor.py:120 | `{}` is a well-formed dict with no entries |
| OrderedDict.Put | cloudflare_monitor.py:129 | dict assignment: the value is set, a new key joins the end of the iteration order, an existing key keeps its place, and well-formedness is kept |
| Matcher.NameOf | cloudflare_monitor.py:123 | a component without `name` has the name `""`, and a present `name` is returned unchanged |
| Matcher.StatusOf | cloudflare_monitor.py:125 | a component without `status` has the status `"unknown"`, and a present `status` is returned unchanged |
| Matcher.FirstTarget | cloudflare_monitor.py:127-133 | the chosen target is one of the targets and occurs in the lower-cased name |
| Matcher.FirstTargetIsFirst | cloudflare_monitor.py:127-133 | a component goes to target `t` exactly when `t` is at some position `k`, occurs in the name, and no earlier target does |
| Matcher.FirstTargetNone | cloudflare_monitor.py:127-133 | a component goes to no target exactly when none of the targets occurs in its name |
| Matcher.FindMatchingComponents | cloudflare_monitor.py:118-134 | the nested loops with `break` build exactly the dictionary `MatchAll` of the cleaned targets |
| Matcher.MatchAllKeysAreTargets | cloudflare_monitor.py:119-132 | the result is a well-formed dict, and every key is one of the cleaned targets |
| Matcher.MatchAllLastWins | cloudflare_monitor.py:122-133 | a target is matched exactly when some component picks it, and then it holds the name and status of the last component that picks it |
| Matcher.StatusComesFromFeed | cloudflare_monitor.py:125-131 | every stored status is some component's own status, or `"unknown"` when that component has none |
| Matcher.NameComesFromFeed | cloudflare_monitor.py:123-130 | every stored component name is some component's own name, or `""` when that component has none |
| Matcher.ScenarioJakarta | cloudflare_monitor.py:122-133 | "Jakarta Edge" is matched, case-insensitively, to the target "jakarta" |
| Matcher.LaterComponentOverwrites | cloudflare_monitor.py:129 | when two components pick "jakarta", the later one is kept, and its missing status reads "unknown" |
| Notifier.Label | cloudflare_monitor.py:69 | a known status gets its table label, and any other status is shown as itself |
| Notifier.Emoji | cloudflare_monitor.py:70 | a known status gets its table emoji, and any other status gets `:question:` |
| Notifier.ColorBands | cloudflare_monitor.py:72-76 | "warning" exactly for partial_outage and under_maintenance, "danger" exactly for major_outage and degraded_performance, "good" exactly for every other status |
| Notifier.PayloadShape | cloudflare_monitor.py:78-92 | one attachment with the status colour and the given timestamp, holding exactly three short fields: Location (title-cased), Component, and Status (`emoji + " " + label`) |
| Notifier.SlackAlert | cloudflare_monitor.py:64-95 | nothing is sent exactly when the webhook is unset or empty; otherwise one post to the webhook of the message for that alert, stamped with the given time |
| Notifier.TablesAgree | cloudflare_monitor.py:30-44 | the label table and the emoji table cover the same five statuses |
| Notifier.UnknownStatusFallback | cloudflare_monitor.py:69-76 | a status outside the tables is labelled as itself, marked `:question:` and coloured "good" |
| Notifier.MissingStatusRendering | cloudflare_monitor.py:125 | the "unknown" status the matcher substitutes renders as ":question: unknown" in "good" |
| Notifier.KnownStatusTextStart | cloudflare_monitor.py:30-44 | the Status field of each of the five known statuses starts with the first three characters of its own emoji |
| Notifier.KnownUnknownApart | cloudflare_monitor.py:69-70 | the Status field of a known status and that of an unknown one differ in their first three characters |
| Notifier.StatusTextInjective | cloudflare_monitor.py:86 | different statuses never produce the same Status field text |
| Notifier.LocationFieldRoundTrip | cloudflare_monitor.py:84 | the Location field of a lower-case target lowers back to the target |
| Notifier.TitleCaseExample | cloudflare_monitor.py:84 | "hong kong" is shown as "Hong Kong" |
| Monitor.OutboxPosts | cloudflare_monitor.py:172 | one post per alert when a webhook is set, none otherwise, and each post is that alert's `send_slack_alert` request |
| Monitor.ReportMissing | cloudflare_monitor.py:155-160 | the not-found loop yields exactly the list `NotFound` of the cleaned targets |
| Monitor.NotFoundExact | cloudflare_monitor.py:155-160 | a target is reported not found exactly when it is a cleaned target without a match |
| Monitor.Monitor.constructor | cloudflare_monitor.py:15-21 | the targets are the parsed setting, the webhook is the setting's value, and `last_statuses` starts empty (line 46) |
| Monitor.Monitor.ProcessCycle | cloudflare_monitor.py:146-177 | the alerts, the not-found list and the new `last_statuses` are those of `Cycle` on the old state, and the posts are one per alert when a webhook is set |
| Monitor.Monitor.DetectChanges | cloudflare_monitor.py:163-175 | the loop over the matches in dict order leaves `last_statuses` as `Recorded` from the state before the loop, emits the alerts `ChangeAlerts` judged against that state, and makes the posts `Outbox` of those alerts |
| Monitor.RecordedAt | cloudflare_monitor.py:163-175 | after the loop has visited some keys, a visited key holds its matched status and any other key holds what it held before |
| Monitor.NotYetRecorded | cloudflare_monitor.py:163-167 | with no key listed twice, the loop reads for each key the status from before the cycle |
| Monitor.VisitStep | cloudflare_monitor.py:163-175 | one turn of the loop alerts and records a key exactly when its matched status differs from the one it had before the cycle, and otherwise leaves both unchanged |
| Monitor.RecordedIsStatuses | cloudflare_monitor.py:163-175 | once every key of a well-formed dict is visited, `last_statuses` is the old map overridden by every matched status |
| Monitor.ChangeAlertsSound | cloudflare_monitor.py:163-175 | every alert concerns a matched location whose status changed, and it carries that match's component name and status |
| Monitor.ChangeAlertsCount | cloudflare_monitor.py:163-175 | over keys listed once, a location gets exactly one alert if its status changed, and none otherwise |
| Monitor.CycleStatuses | cloudflare_monitor.py:147-175 | an empty fetch changes nothing (lines 148-150); after any cycle, every matched target holds its matched status, and every other entry is as before |
| Monitor.CycleAlertsExact | cloudflare_monitor.py:147-175 | one alert for each matched target whose status was absent or different, none for any other location, and none at all after an empty fetch |
| Monitor.CycleNotFoundExact | cloudflare_monitor.py:152-160 | the not-found list of a cycle is exactly the cleaned targets missing from the matches |
| Monitor.NoChangeNoAlerts | cloudflare_monitor.py:163-167 | when every visited status is already recorded, the loop raises nothing |
| Monitor.CycleIdempotent | cloudflare_monitor.py:147-175 | running the same cycle again raises no alert, and it leaves the state and the not-found list as they were |
| Monitor.FirstSighting | cloudflare_monitor.py:163-175 | a single matching component seen for the first time gives one alert and is remembered |
| Monitor.FirstSightingAlerts | cloudflare_monitor.py:147-175 | "Jakarta Edge" with "operational" and no prior state gives one alert, and the state becomes `{"jakarta": "operational"}` |
| Monitor.KnownStatusIsQuiet | cloudflare_monitor.py:163-175 | the same feed with "operational" already recorded gives no alert and changes nothing |

## Left out

- `fetch_components` (lines 104-115) is left out. It is an HTTP GET and a JSON decode. The model takes the decoded component list as input.
- Fetched values that are not strings are not modelled. A `name` or `status` that is JSON `null` or a number, or a component that is not an object, would misbehave or raise in the source.
- The `while True` loop, `time.sleep` and the interval (lines 146-150, 177) are left out. `ProcessCycle` models one pass of the loop body.
- `int(os.getenv("SLEEP_INTERVAL", "60"))` (line 28) is left out, because the interval only feeds the sleep. `COMPONENTS_URL` (lines 23-26) is left out because it only feeds the fetch.
- Reading the environment is left out. The constructor takes the raw values of `TARGET_LOCATIONS` and `SLACK_WEBHOOK_URL`, with `None` when a variable is unset.
- Logging (lines 51-61, and every `logging.*` call) is a side effect only. This includes the startup summary in `main` (lines 138-144) and the label computed only for the log line 168. The not-found warnings and the alerts are returned instead.
- `requests.post` and its response handling (lines 94-101) are left out. `SlackAlert` returns the request that would be posted. The source updates `last_statuses` whether or not the post succeeds, so nothing else depends on the response.
- `Monitor.Monitor.ProcessCycle` takes one timestamp `now` for the whole cycle. The source calls `time.time()` separately for each alert.
- `str.strip`, `str.lower` and `str.title` work on Unicode in Python. The model uses their ASCII behaviour: whitespace is characters 9-13 and 28-32, and only `A`-`Z` and `a`-`z` change case.
- `KeyboardInterrupt` handling and `sys.exit` (lines 180-185) are process control.
