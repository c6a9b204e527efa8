# slack-export-filter, modelled in Dafny

`slack-export-filter.py` reads the JSON message logs of a Slack export and
prints the messages sent by the users named with `--username`. If no
`--username` is given, it prints every message. In both cases it stops at the
first message whose `user` key is missing or whose sender is not in the user
table, or, for a message it would print, whose `ts` or `text` key is
missing. That table maps user ids to user names. It starts with
`USLACKBOT -> slackbot` and is then updated from the records of an optional
`--users-file`. In a printed message's text, each user id of the table is
replaced in turn, in the dictionary's iteration order. The result can
therefore depend on that order (see `OrderMatters` below).

The model has six modules:

- `Wrappers` (`wrappers.dfy`): `Option`, `Result`, and the script's two kinds of `KeyError`.
- `PyString` (`py_string.dfy`): Python's `str.replace`, `str.count` and `in` on strings. Replacement scans left to right and replaces non-overlapping occurrences. An empty pattern inserts the replacement everywhere, as Python does. `str.split` and `str.join` are written out too, as an independent reference definition of replacement.
- `UserTable` (`user_table.dfy`): the table build. `Table` is the specification and `Build` is the loop. Records may lack `id` or `name`.
- `Dereference` (`dereference.dfy`): `dereference_usernames`. Python 2 leaves dictionary iteration order unspecified, so the order is a parameter `keys`. `IterationOrder` requires only that every key of the table appears exactly once.
- `MessageFilter` (`message_filter.dfy`): the message loop. `Filter` is the specification. `FilterLog` is the loop over one file, and `FilterFiles` is the loop over all input files. A run either completes or stops at the first `KeyError`, and the entries printed before that error are kept (`Outcome`).
- `Script` (`script.dfy`) joins the table build and the message loop, as the script does from top to bottom.

A message is modelled with optional `user`, `ts` and `text` keys. The script
reads `user` and then indexes the table, so a missing key or an unknown id
raises. Only then does the `--username` test run. A message that passes reads
`ts`, then `text`. A user record reads `name` before `id`, because Python
evaluates the right-hand side of `users[u['id']] = u['name']` first.

A message without `user` (a bot message, for instance), or with a sender id
missing from the table, raises `KeyError` at lines 33-34 and stops the run.

`Dereference.OrderMatters` shows that the dereferenced text can depend on the
dictionary's iteration order when one user id is a prefix of another. With
`U1 -> a` and `U12 -> b`, the text `U12` becomes `a2` or `b`, depending on
which key is replaced first. The model therefore keeps the order as a
parameter and proves its other properties for every order.

## Model

| member | source | states |
|---|---|---|
| `PyString.Replace` | slack-export-filter.py:26 | `s.replace(pat, rep)`: non-overlapping occurrences are replaced left to right, and an empty `pat` inserts `rep` everywhere. A text in which `str.count` finds no occurrence comes back unchanged |
| `PyString.ReplaceLength` | slack-export-filter.py:26 | `text.replace(k, name)` changes the length by `len(name) - len(k)` per occurrence counted by `str.count`, the empty key included |
| `PyString.ReplaceAbsent` | slack-export-filter.py:26 | a text that does not contain the key is returned unchanged |
| `PyString.ReplaceSelf` | slack-export-filter.py:26 | replacing a key by itself leaves every text unchanged, the empty key included |
| `PyString.ReplaceIsJoinOfSplit` | slack-export-filter.py:26 | for a non-empty key, `replace` agrees with the reference definition `name.join(text.split(k))` |
| `PyString.SplitJoinRoundTrip` | slack-export-filter.py:26 | splitting on a key and joining with it again gives back the text |
| `PyString.SplitCount` | slack-export-filter.py:26 | the number of pieces is one more than the number of occurrences replaced |
| `PyString.LeftmostMatch` | slack-export-filter.py:26 | matches are taken left to right: `"aaa".replace("aa", "b")` is `"ba"` and `"aaa".split("aa")` is `["", "a"]` |
| `PyString.SplitPartsFree` | slack-export-filter.py:26 | no piece between two replaced occurrences contains the key, so replacement misses no occurrence |
| `UserTable.Table` | slack-export-filter.py:18-22 | the table after the seed and the records in order, or the first `KeyError` (`name` read before `id`). A built table always has a `USLACKBOT` entry |
| `UserTable.Build` | slack-export-filter.py:18-22 | the loop over the user records returns exactly the table (or the first `KeyError`) of the specification `Table` |
| `UserTable.FailurePersists` | slack-export-filter.py:21-22 | once a record raises, the build ends with that error whatever follows |
| `UserTable.TableSucceedsIff` | slack-export-filter.py:21-22 | the build succeeds iff every record has both `id` and `name` |
| `UserTable.TableKeys` | slack-export-filter.py:18-22 | the table's ids are `USLACKBOT` plus the ids of the records, and nothing else |
| `UserTable.LastRecordWins` | slack-export-filter.py:21-22 | each id maps to the name of the last record carrying it |
| `UserTable.UntouchedIdKeepsSeed` | slack-export-filter.py:18-22 | an id that no record carries keeps its value from before the records were read |
| `UserTable.SlackbotSeed` | slack-export-filter.py:18 | `USLACKBOT` maps to `slackbot` unless a record with that id overrides it |
| `Dereference.Dereferenced` | slack-export-filter.py:24-27 | the text after `replace(k, users[k])` for each key in the given iteration order. A text in which no key is counted comes back unchanged |
| `Dereference.DereferenceUsernames` | slack-export-filter.py:24-27 | the loop returns the text after replacing each key by its name, one key after another in iteration order |
| `Dereference.EmptyTable` | slack-export-filter.py:24-27 | with an empty table the text is returned unchanged |
| `Dereference.NoKeyOccurs` | slack-export-filter.py:25-27 | if no key of the table occurs in the text, the text is returned unchanged, whatever the iteration order |
| `Dereference.SelfEntry` | slack-export-filter.py:25-26 | an entry `k -> k` has no effect: the result equals that of the table and order without `k` |
| `Dereference.OrderMatters` | slack-export-filter.py:25-26 | two iteration orders of the same table can give different results |
| `MessageFilter.Passes` | slack-export-filter.py:36 | the `--username` test: an empty list passes every message; otherwise the sender id or its name must be listed |
| `MessageFilter.Handle` | slack-export-filter.py:33-38 | one pass of the loop body. It raises exactly when `user` is missing, the sender is unknown, or a passing message lacks `ts` or `text`. It outputs an entry exactly when the sender is known, passes and the message is complete, and that entry is the timestamp, sender name and dereferenced text |
| `MessageFilter.Filter` | slack-export-filter.py:32-39 | the outcome of the loop over a log: the entries of the handled messages in order, stopping at the first `KeyError`; at most one entry per message |
| `MessageFilter.FilterLog` | slack-export-filter.py:32-39 | the loop over one file's messages prints exactly the entries of the specification `Filter` and stops with the same error |
| `MessageFilter.FilterFiles` | slack-export-filter.py:30-39 | the loop over the files behaves as the message loop over all their messages concatenated in file order |
| `MessageFilter.FailurePersists` | slack-export-filter.py:32-34 | once a message raises, the run's outcome no longer changes |
| `MessageFilter.FilterAppend` | slack-export-filter.py:30-32 | running over two message lists one after the other is running over their concatenation |
| `MessageFilter.FlattenPrefixFailure` | slack-export-filter.py:30-31 | an error in one file ends the run, so later files add nothing |
| `MessageFilter.EmptyFilterShowsAll` | slack-export-filter.py:36 | with no `--username`, every complete message is printed, in order, one entry each |
| `MessageFilter.FilterIsOrderedSelection` | slack-export-filter.py:32-38 | a run without error prints a subsequence of the input in input order: message `i` is printed iff its sender id or the sender's name is listed (or the list is empty) |
| `MessageFilter.SelectedIndicesOrdered` | slack-export-filter.py:33-36 | the positions that pass the filter increase, and a position is listed iff its message passes |
| `MessageFilter.FilterRendersSelected` | slack-export-filter.py:36-38 | the `j`-th entry printed is the timestamp, sender name and dereferenced text of the `j`-th passing message |
| `MessageFilter.BadSenderFails` | slack-export-filter.py:33-34 | a message without `user`, or with a sender id missing from the table, makes the run fail rather than being skipped; what is printed is exactly what the messages before it print, nothing from it or from later messages |
| `MessageFilter.PrintedBound` | slack-export-filter.py:36-39 | at most one entry is printed per message |
| `MessageFilter.FailsIff` | slack-export-filter.py:32-38 | the run fails iff handling some message raises |
| `Script.Run` | slack-export-filter.py:18-38 | a users file with a bad record stops the run before any message is printed; otherwise the output is the message loop's over the built table |

## Left out

- Argument parsing (`argparse`, lines 11-14): the `--username` list, the user records and the input logs are parameters. Having no `--users-file` gives the same table as an empty list of records.
- Opening and reading files, and falling back to standard input (lines 20, 29-31): I/O. The logs are already-decoded values.
- JSON decoding (lines 16, 20, 31): a library call. Records and messages are decoded values whose fields are strings when present. A JSON value of another type (a `null` name, say, which makes a later `replace` raise `TypeError`) is not modelled.
- Timestamp conversion (line 37): float parsing and local-time conversion. `Entry.when` holds the raw `ts` string, so a `ts` that `float` rejects is not modelled as an error.
- Output formatting, `print` and `.encode('utf-8')` (lines 39-40): presentation and I/O. The model produces the printed `(when, sender name, dereferenced text)` entries.
- Python 2 dictionary iteration order: not determined by the model. The order is a parameter `keys` that lists each key once, and the properties are proved for every such order.
- Strings are sequences of characters. The model does not distinguish Python 2 byte strings from unicode strings. This matters for the `--username` test at line 36. There, the `--username` values are byte strings, while the ids and names decoded from JSON are unicode. A non-ASCII `--username` therefore compares unequal (with a `UnicodeWarning`) and never selects a message. In the model it selects the messages whose sender has that name.
