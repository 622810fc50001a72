# Gmail rule engine — a Dafny model

This project models the rule-evaluation engine of a small Gmail rule
processor: `apply_rules`, which tests each rule's conditions against an email
and calls `perform_actions` for every rule that fires, and `perform_actions`,
which turns the action strings `mark_as_read` and `move_to_folder:<name>` into
`messages().modify` requests on the mailbox.

The model is functional. An email is an immutable `Email` record with the five
keys `get_email_details` produces. Rules arrive already parsed, as `Rule` and
`Condition` values that keep the raw strings from `rules.json`. The current
time is an integer number of seconds passed in as `now`. The Gmail service is
reduced to a fixed list of `(id, name)` labels. The mailbox requests come out as
an ordered trace of `RemoveUnread(id)` and `AddLabel(id, labelId)` operations.

Files and modules:

- `common.dfy` — `Common`: `Option` and `Result`.
- `text.dfy` — `Text`: the Python string primitives the engine uses, over
  ASCII. These are `lower()`, `replace`, the `in` substring test,
  `split(':')[1]` and `int(str)`.
- `mail.dfy` — `Mail`: emails, conditions, rules, labels, operations, the
  three errors evaluation can raise, and `Run`, which is a trace plus the
  error that stopped it, if any.
- `actions.dfy` — `Actions`: `perform_actions`.
- `rules.dfy` — `Rules`: field resolution, the predicates, the All/Any
  combination, the rule loop, and the two composed.

## Behaviour worth knowing

The model does what the code does, including where that differs from what
the docstring of `apply_rules` (gmail_search.py:100) leads one to expect,
"trigger actions if conditions are met":

- `conditions_met` only ever receives `True`, because a condition that does
  not match appends nothing. So `all(conditions_met)` always holds, and an
  `All` rule fires whenever none of its conditions raises, whatever they test
  (`Rules.AllFiresUnlessRaised`, `Rules.AllFiresOnMismatch`).
- A missing date and a `less_than` value that is not an integer raise rather
  than fail to match: `datetime.now() - None` raises `TypeError`, and
  `int(value)` raises `ValueError`. The exception leaves `apply_rules`, so the
  remaining conditions and rules are never looked at. The `perform_actions`
  calls already made for earlier rules stay made (`Rules.ErrorStopsRun`,
  `Rules.ErrorKeepsEarlierRequests`). The model shows this as a `Run` that
  carries the error.
- `contains` and `equals` on the `received_date` key call `.lower()` on a
  datetime or on `None`, and that raises `AttributeError`. The model shows this
  as the error `NotText`. `less_than` and unknown predicate names never
  evaluate the field value, so they do not raise there.
- An unknown `condition_type` is not an error. The rule simply never fires.

## Model

| member | source | states |
|---|---|---|
| `Text.IsSubstring` | gmail_search.py:110 | `needle in hay` holds exactly when the needle occurs at some index of the haystack |
| `Text.UpTo` | gmail_search.py:134 | the folder name is the text up to the next colon: a prefix of the rest with no colon, followed by a colon or the end of the string |
| `Text.Lower` | gmail_search.py:109-112 | `str.lower()` leaves no upper-case letter and changes nothing but the case of letters |
| `Text.LowerAlike` | gmail_search.py:110-112 | two strings lower-case alike exactly when they have the same length and differ only in the case of letters |
| `Text.ReplaceChar` | gmail_search.py:109 | `replace(' ', '_')` keeps every character or turns a space into an underscore, and leaves no space |
| `Text.StripLeftParts` | gmail_search.py:116 | the whitespace `int()` skips in front of a number, which is space, tab, line feed, vertical tab, form feed and carriage return: what is kept is a suffix that starts with no such character, and everything dropped is one |
| `Text.StripRightParts` | gmail_search.py:116 | the same behind the number: what is kept is a prefix that ends with no such character, and everything dropped is one |
| `Text.StripParts` | gmail_search.py:116 | the stripped text sits inside the original with only those six whitespace characters around it |
| `Text.ParseInt` | gmail_search.py:116 | `int()` only accepts text containing a digit and made of digits, whitespace, underscores and signs; `Text.ParseIntGrammar` gives exactly which texts it accepts and their values |
| `Text.ParseIntGrammar` | gmail_search.py:116 | `int(s)` is `n` exactly when `s` is whitespace, an optional `+` or `-`, digits with single underscores between them, at most 4300 digits, and whitespace, and the signed value of those digits is `n`; everything else raises `ValueError` |
| `Text.ParseShape` | gmail_search.py:116 | text of that shape is read as its signed value, or raises `ValueError` when it has more than 4300 digits |
| `Text.ParseShowRoundTrip` | gmail_search.py:116 | `int()` reads back the decimal text of every integer of at most 4300 digits, whatever whitespace surrounds it, and raises on a longer one |
| `Text.ParseIntRejects` | gmail_search.py:116 | `int()` rejects empty text, a word and a doubled underscore |
| `Text.ParseIntRejectsSeparators` | gmail_search.py:116 | `int()` rejects a leading underscore, a sign separated from the digits by a space, and a file separator (0x1C) in front of the digits |
| `Text.ParseIntAccepts` | gmail_search.py:116 | `int()` accepts single underscores between digits, leading zeros, a sign and surrounding whitespace |
| `Actions.Decode` | gmail_search.py:130-134 | an action is `mark_as_read` exactly when it equals that string, and a folder move exactly when it starts with `move_to_folder:`; the folder name has no colon and is followed in the action by a colon or the end |
| `Actions.DecodeMove` | gmail_search.py:133-134 | the folder of `move_to_folder:<name>` followed by nothing or by a colon is exactly `<name>` |
| `Actions.DecodeEncode` | gmail_search.py:133-134 | decoding inverts encoding exactly when the folder name has no colon |
| `Actions.FindLabel` | gmail_search.py:135-136 | no id is found exactly when no label name matches case-insensitively; a found id belongs to the first matching label |
| `Actions.NameMatches` | gmail_search.py:136 | a label name matches the folder name exactly when the two have the same length and differ only in the case of letters |
| `Actions.ActionOps` | gmail_search.py:130-139 | one action yields at most one request, about the given email; it removes UNREAD exactly when the action is `mark_as_read`; an action that is neither that nor a folder move yields nothing; an added label id is non-empty and listed by the mailbox (`Actions.MoveToFolderOps` states the folder case exactly) |
| `Actions.PerformActions` | gmail_search.py:121-139 | every request is about the given email, each action produces at most one request, and a label is only added by a non-empty id the mailbox listed |
| `Actions.PerformActionsAppend` | gmail_search.py:129-139 | actions are processed in order: the requests for a concatenation of action lists are the two traces concatenated |
| `Actions.MarkAsReadCount` | gmail_search.py:130-131 | the number of remove-UNREAD requests equals the number of `mark_as_read` entries |
| `Actions.UnrecognisedIsIgnored` | gmail_search.py:129-133 | a string that is neither `mark_as_read` nor a folder move produces no request and no error |
| `Actions.MoveToFolderOps` | gmail_search.py:133-139 | a folder move produces at most one request; it adds label `l` exactly when `l` is the non-empty id of the first label whose name matches; with no match it produces nothing |
| `Actions.MissingFolderIsNoOp` | gmail_search.py:133-139 | moving to "Archive" when no label is named "archive" in any case sends nothing and raises nothing |
| `Rules.NormalizeField` | gmail_search.py:109 | the lookup key has the field name's length; each of its characters is the name's character lower-cased, or `_` where the name has a space; so it has no spaces and no upper-case letters |
| `Rules.NormalizeFieldIdempotent` | gmail_search.py:109 | normalising a key again leaves it unchanged |
| `Rules.NormalizeFieldFixed` | gmail_search.py:109 | a name with no space and no upper-case letter is its own key |
| `Rules.NormalizeFieldAlike` | gmail_search.py:109 | two names select the same key exactly when they have the same length and differ only in letter case or in a space against an underscore |
| `Rules.Lookup` | gmail_search.py:109 | `email.get(key, '')`: only `received_date` yields a non-string, and a key the email lacks yields `''` |
| `Rules.Resolve` | gmail_search.py:109 | a field name yields a non-string exactly when it normalises to `received_date`, and `''` when its key is not one of the email's |
| `Rules.ResolveByKey` | gmail_search.py:109 | names with the same normalised key read the same value; the names for `id`, `sender`, `subject` and `body` read those fields; a key the email lacks reads as `''` and is no error; only `received_date` reads a non-string |
| `Rules.ResolveExamples` | gmail_search.py:109 | "Subject" reads the subject, "Received Date" reads the date, and "From" reads `''` |
| `Rules.EvalCondition` | gmail_search.py:109-117 | a condition raises exactly when `contains` or `equals` reads the date field, or `less_than` meets a missing date or a value `int()` rejects; `Rules.ContainsMeaning`, `Rules.EqualsMeaning`, `Rules.LessThanMeaning` and `Rules.UnknownTestRecordsNothing` give its value |
| `Rules.ContainsMeaning` | gmail_search.py:109-111 | on a string field, `contains` never raises and matches exactly when the lower-cased value occurs in the lower-cased field; an empty value always matches; a non-empty value never matches a missing key |
| `Rules.EqualsMeaning` | gmail_search.py:112-113 | on a string field, `equals` never raises and matches exactly when value and field are equal after lower-casing |
| `Rules.EqualsIgnoresCase` | gmail_search.py:112-113 | `equals "Test"` matches the subject "test" |
| `Rules.TextTestOnDateRaises` | gmail_search.py:109-112 | `contains` and `equals` on the `received_date` key raise |
| `Rules.UnknownTestRecordsNothing` | gmail_search.py:110-117 | a predicate name other than the three exact lower-case names records nothing and raises nothing |
| `Rules.DaysOldFloor` | gmail_search.py:115 | `DaysOld`, the age's `timedelta.days`, is the floor of the elapsed seconds over 86400: Dafny's Euclidean `/` by a positive divisor rounds down, as `timedelta` does, also for a date in the future; `Rules.DaysOldBelow` turns this into the `less_than` comparison |
| `Rules.DaysOldBelow` | gmail_search.py:115-116 | the floor of the age in days is below `n` exactly when the age in seconds is below `n` days' worth |
| `Rules.LessThanMeaning` | gmail_search.py:114-117 | `less_than` ignores the field; it raises when the date is missing or when `int()` rejects the value; otherwise it holds exactly when the email is less than `n` days old |
| `Rules.Record` | gmail_search.py:107-117 | the recorded list holds only `True`; it is non-empty exactly when some condition matches; evaluation fails exactly when some condition raises, and then with the error of the first such condition |
| `Rules.Fires` | gmail_search.py:118 | only `All` and `Any` can fire; with nothing recorded, exactly `All` fires |
| `Rules.RuleOutcome` | gmail_search.py:107-118 | a rule raises exactly when one of its conditions raises, and fires only when its type is `All` or `Any`; `Rules.AllFiresUnlessRaised`, `Rules.AnyFiresOnAMatch` and `Rules.OtherTypeNeverFires` give its value |
| `Rules.RuleOutcomeError` | gmail_search.py:107-118 | a raising rule raises the error of its first raising condition, all conditions before it having been evaluated without error |
| `Rules.AllFiresUnlessRaised` | gmail_search.py:107-118 | an `All` rule reaches a verdict exactly when no condition raises, and then it fires |
| `Rules.AllFiresOnMismatch` | gmail_search.py:112-118 | an `All` rule whose only condition does not match still fires |
| `Rules.AnyFiresOnAMatch` | gmail_search.py:107-118 | an `Any` rule without errors fires exactly when some condition matches; with no conditions it never fires |
| `Rules.AnyWithOneMatchFires` | gmail_search.py:107-118 | an `Any` rule with one matching and one non-matching condition fires, in either order |
| `Rules.OtherTypeNeverFires` | gmail_search.py:118 | a `condition_type` other than `All` or `Any` never fires |
| `Rules.Dispatch` | gmail_search.py:106-119 | given the rule verdicts, every call carries the email id, there is at most one call per rule, the run completes exactly when no verdict is an error, and a stopping error is some rule's error |
| `Rules.DispatchAppend` | gmail_search.py:106-119 | the loop over a concatenation runs the first part, and only if it completed, the second part after it |
| `Rules.ApplyRules` | gmail_search.py:99-119 | every call carries the email id, there is at most one call per rule, the run completes exactly when no rule's conditions raise, and a stopping error is one some rule raised |
| `Rules.ApplyRulesAppend` | gmail_search.py:106-119 | rules are processed in list order; an error in the first list stops the run before the second list |
| `Rules.ApplyOneRule` | gmail_search.py:118-119 | a firing rule makes exactly one call, with the email id and the rule's exact action list; a rule that does not fire makes none; a raising rule makes none and stops the run |
| `Rules.ErrorStopsRun` | gmail_search.py:106-119 | when rule `k` is the first to raise, the calls are exactly those of the rules before it, and the run ends with that error |
| `Rules.Execute` | gmail_search.py:119-139 | running `perform_actions` for each call in turn sends only requests about the emails of those calls; `Rules.ExecuteCall` and `Rules.ExecuteAppend` together fix its requests on every input |
| `Rules.ExecuteAppend` | gmail_search.py:106-139 | the requests for a concatenation of calls are the two request traces concatenated |
| `Rules.ExecuteCall` | gmail_search.py:119 | one call `perform_actions(email_id, actions)` sends exactly the requests of `Actions.PerformActions` for that id and action list |
| `Rules.Process` | gmail_search.py:99-139 | every mailbox request is about the email, and the run stops with the same error as the rule loop; `Rules.ProcessOneRule` and `Rules.ProcessAppend` give the requests themselves |
| `Rules.ProcessOneRule` | gmail_search.py:118-139 | a single firing rule sends exactly the requests `perform_actions(email['id'], rule['actions'])` sends; a rule that does not fire sends nothing; a raising rule sends nothing and stops the run with its error |
| `Rules.ErrorKeepsEarlierRequests` | gmail_search.py:106-139 | the requests sent before an error stay in the trace: they are exactly those of the rules before the raising one |
| `Rules.ProcessAppend` | gmail_search.py:106-139 | when the first rule list completes, the requests for a concatenation of rule lists are the two request traces concatenated |
| `Rules.MarkTestEmailRead` | gmail_search_unit_test.py:63-76 | the unit test `test_apply_rules`: `Subject contains "Test"` matches the day-old "Test Email", the single call is `('123', ['mark_as_read'])`, and that call removes the UNREAD label |

## Left out

- `authenticate_gmail`: OAuth, the pickle token file and the network. The Gmail service is reduced to its label list, and requests are recorded rather than sent.
- `fetch_emails` and `get_email_details`: Gmail API calls, plus `strptime` and base64/UTF-8 decoding. Emails enter the model already built. The date is whole seconds or absent.
- `store_email` and `db.py`: PostgreSQL storage.
- `load_rules`: the file read and JSON parsing. Rules enter the model already parsed, and a rule missing a key (a `KeyError`) is not modelled.
- `main` and all `logging` calls.
- Failures of the Gmail service inside `perform_actions` are not modelled. These are network or API errors, and an expired token. The label list is assumed to stay the same for the whole run, although the source fetches it again for every folder move.
- `lower()` lower-cases ASCII letters only. Python's Unicode case mapping is not modelled.
- `Text.ParseInt`: `int()` is modelled for ASCII digits and the six ASCII whitespace characters it skips. Non-ASCII decimal digits and non-ASCII whitespace, which Python also accepts, are not modelled.
- `Text.ParseInt`: the digit bound is CPython's default of 4300. A bound changed through `sys.set_int_max_str_digits` or `PYTHONINTMAXSTRDIGITS` is not modelled. Neither are Python versions before 3.11 without the 3.7.14, 3.8.14, 3.9.14 or 3.10.7 security releases, which have no bound.
- Condition values are strings. A JSON integer given as a `less_than` value is modelled by its decimal text, which `Text.ParseShowRoundTrip` shows parses back to the same number. A JSON float (`int(2.5)` is 2, truncating) and a JSON boolean (`int(True)` is 1) are not modelled, nor are non-string values for `contains` and `equals`.
- `datetime.now()` is taken in whole seconds. This does not change `.days`, because the parsed date has whole seconds.
- The source reads `datetime.now()` afresh for every `less_than` condition (gmail_search.py:115). The model uses one `now` for the whole run, so a run that straddles a day boundary is not modelled.
