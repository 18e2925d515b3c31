# Data Protector user accounts: a verified model

This project models the account logic of the Ansible collection for Micro Focus
Data Protector. The collection drives the `omniusers` administration command
and reads its line-oriented text output. The model covers four pieces:

- **Listing parser** `get_users`. It runs `omniusers -list` and walks the
  `Key: Value` lines of the listing. It builds a dictionary from the
  `Web Username` identity key to an account record. A record is filed when a
  `Descr` line is read. The loop's locals are never reset, so values carry
  over from one record to the next.
- **Command builders and outcome classifiers** `create_user` and `remove_user`.
  Each builds a quoted `omniusers` command line. In check mode it returns
  early. Otherwise it maps the exit code and stderr of the run to one of three
  outcomes: unchanged (a benign "already exists" / "does not exist" marker),
  fatal, or changed.
- **Module entry** `run_module`. It assembles the identity key
  `name|os_group|client` and escapes `|*` as `|\*`. It checks that the cell
  server is installed and looks the key up in the listing. It then decides
  `changed` from the desired state and whether the account exists; check mode
  leaves early.
- **Argument check** `argument_validator`. It rejects a set, nonempty client
  name unless it is one run of non-whitespace characters, optionally followed
  by a single newline (the `$` of `re.match` also matches before a final
  newline).

Dafny modules:

- `PyStr`: the Python `str` built-ins the code relies on, with CPython's
  semantics. These are `isspace` (the same set as the `\s` of `re`), `strip`,
  `isupper`, `split` with a separator, `splitlines`, `replace` and `in`.
- `Runtime`: the outside world as values. `fail_json` becomes an `Err`, an
  unassigned Python local becomes an `UnboundLocal` error, and the result of
  running a command is an `ExecResult(rc, out, err)` that the caller supplies.
- `CommandText`: a reader of built command lines. It returns the sequence of
  (option word, double-quoted value) pairs, and it is the inverse the command
  builders are proved against.
- `MfdpUsersUtil`: `get_users` as a method with a loop, proved equal to the
  fold `Listing`. Lemmas state what the fold computes. The module also holds
  the create and remove builders and the outcome classification.
- `MfdpUsers`: the identity-key escape, with its lemmas, and `run_module` as a
  method.
- `MfdpCellUtil`: `argument_validator` as a method, and the meaning of the
  pattern `^\S+$` under `re.match`.

## Model

| member | source | states |
|---|---|---|
| PyStr.TrimStartSpec | plugins/module_utils/mfdp_users_util.py:19-20 | `lstrip` removes exactly a leading run of whitespace: the result is a suffix, does not start with whitespace, and all it dropped is whitespace |
| PyStr.TrimEndSpec | plugins/module_utils/mfdp_users_util.py:19-20 | `rstrip` removes exactly a trailing run of whitespace: the result is a prefix, does not end with whitespace, and all it dropped is whitespace |
| PyStr.StripSpec | plugins/module_utils/mfdp_users_util.py:19-20 | `strip()` gives a trimmed text that sits inside the original between two runs of whitespace |
| PyStr.StripPadded | plugins/module_utils/mfdp_users_util.py:19-20 | stripping any whitespace padding of a trimmed text gives that text back (so the stripped key is the one trimmed core of the line's key) |
| PyStr.IsUpperFrom | plugins/module_utils/mfdp_users_util.py:27 | `isupper()` holds exactly when some character is upper case and none is lower case |
| PyStr.JoinSplit | plugins/module_utils/mfdp_users_util.py:15 | joining the pieces of `split(sep)` with `sep` gives the line back, so no text is lost or reordered |
| PyStr.SplitFieldNone | plugins/module_utils/mfdp_users_util.py:15 | a line without `": "` splits into itself alone, so it is dropped |
| PyStr.SplitFieldOne | plugins/module_utils/mfdp_users_util.py:15 | a line that splits into one piece holds no `": "` |
| PyStr.SplitFieldPair | plugins/module_utils/mfdp_users_util.py:15 | a line splits into exactly two pieces if and only if `": "` occurs in it only once; the pieces are then the text before and after it, so a line with two separators is dropped, not split at the first one |
| PyStr.SplitLines | plugins/module_utils/mfdp_users_util.py:15 | `splitlines()` gives no line exactly for empty text, and no line contains a line boundary |
| PyStr.SplitLinesOne | plugins/module_utils/mfdp_users_util.py:15 | nonempty text without a line boundary is one line |
| PyStr.SplitLinesCons | plugins/module_utils/mfdp_users_util.py:15 | a line ended by a line boundary (a `\r` not followed by `\n`, or any other boundary) is the first line, and the text after the boundary gives the remaining lines in order |
| PyStr.SplitLinesCrLf | plugins/module_utils/mfdp_users_util.py:15 | a line ended by `\r\n` is the first line: the pair counts as one boundary, and the remaining lines follow in order |
| PyStr.Contains | plugins/module_utils/mfdp_users_util.py:73 | `sub in s` holds exactly when `sub` occurs in `s` at some index |
| MfdpUsersUtil.TypeOf | plugins/module_utils/mfdp_users_util.py:25-30 | the account type is Windows exactly when the OS group has an upper-case character and no lower-case one, Unix otherwise |
| MfdpUsersUtil.FieldLines | plugins/module_utils/mfdp_users_util.py:15 | the pairs kept are exactly the lines that split into two pieces, as those pieces; no more pairs than lines |
| MfdpUsersUtil.FieldLinesAppend | plugins/module_utils/mfdp_users_util.py:15 | the pairs of two runs of lines are the pairs of the first run followed by those of the second: order and repetitions are kept |
| MfdpUsersUtil.FieldLinesOne | plugins/module_utils/mfdp_users_util.py:15 | one line gives its two pieces as a pair when it splits into exactly two, and nothing otherwise |
| MfdpUsersUtil.FieldsCons | plugins/module_utils/mfdp_users_util.py:15 | the first line of the listing text gives its pair, if any, ahead of the pairs of the text after its line boundary, so pairs follow the order of the lines in the text |
| MfdpUsersUtil.GetUsers | plugins/module_utils/mfdp_users_util.py:8-47 | the loop over the listing gives the fold `Listing`: a nonzero exit code fails with the listing command and stderr, a `Descr` line read before a needed local was set fails as an unassigned local, and otherwise the dictionary is returned |
| MfdpUsersUtil.ParseErrorPersists | plugins/module_utils/mfdp_users_util.py:18-45 | once a line fails, the lines after it change nothing: the first failure is the result |
| MfdpUsersUtil.LatestNone | plugins/module_utils/mfdp_users_util.py:18-34 | there is no latest value for a key exactly when no line has that key |
| MfdpUsersUtil.StepByLocal | plugins/module_utils/mfdp_users_util.py:18-45 | one pass of the loop body, local by local: each local changes only on its own key, the type follows the OS group, and only a `Descr` line can fail (exactly when a needed local is unassigned) or file an account |
| MfdpUsersUtil.StepKeepsLatest | plugins/module_utils/mfdp_users_util.py:18-45 | one pass of the loop body leaves every local holding the latest value read for its key, including the type derived from the OS group |
| MfdpUsersUtil.ParseLocalsAreLatest | plugins/module_utils/mfdp_users_util.py:18-45 | after any number of lines, each local holds the latest value read for its key anywhere earlier, across record boundaries; the type follows the latest OS group |
| MfdpUsersUtil.LastRecordForSpec | plugins/module_utils/mfdp_users_util.py:33-45 | finds the last `Descr` line filed under a web user name, and finds none exactly when there is no such line |
| MfdpUsersUtil.ParseUsersStep | plugins/module_utils/mfdp_users_util.py:35-45 | the dictionary changes only at a `Descr` line, which files the record of the latest values under the latest web user name |
| MfdpUsersUtil.ParseUsersAreLastRecords | plugins/module_utils/mfdp_users_util.py:35-45 | the dictionary's keys are exactly the web user names some `Descr` line filed a record under, and each maps to the record of the last such line (last one wins) |
| MfdpUsersUtil.ParseUsersAtMostDescrLines | plugins/module_utils/mfdp_users_util.py:35-45 | there are at most as many accounts as `Descr` lines |
| MfdpUsersUtil.ParseStepFails | plugins/module_utils/mfdp_users_util.py:35-45 | a `Descr` line fails exactly when one of name, user group, OS group, client or web user name was never assigned; the failure is an unassigned local, and an earlier failure is carried on unchanged |
| MfdpUsersUtil.ParseFailsIff | plugins/module_utils/mfdp_users_util.py:18-45 | the walk fails if and only if some `Descr` line comes before a field a record needs, and the failure is always an unassigned local |
| MfdpUsersUtil.ParseOneRecord | plugins/module_utils/mfdp_users_util.py:18-45 | one record with OS group `OPS` gives one Windows account filed under its web user name |
| MfdpUsersUtil.NoDescrNoUsers | plugins/module_utils/mfdp_users_util.py:18-45 | lines without a `Descr` line never fail and file no account |
| MfdpUsersUtil.ListingWithoutDescr | plugins/module_utils/mfdp_users_util.py:15-47 | a successful listing without any `Descr` line gives the empty dictionary |
| MfdpUsersUtil.ListingCommandFails | plugins/module_utils/mfdp_users_util.py:12-13 | a nonzero exit code of the listing is a failure whose message carries the listing's stderr |
| MfdpUsersUtil.CreateCommandType | plugins/module_utils/mfdp_users_util.py:51-56 | the create command starts with `omniusers -add -type` and `W` for a Windows account, `U` for any other type |
| MfdpUsersUtil.CreateBaseOptions | plugins/module_utils/mfdp_users_util.py:56-60 | the create command reads back as `-usergroup`, `-name`, `-group`, `-client` in that order, each with its value unchanged |
| MfdpUsersUtil.CreateCommandOptions | plugins/module_utils/mfdp_users_util.py:56-65 | reading the create command back gives exactly its options: the four required ones, then `-desc` and then `-pass` only when the description or password is set and nonempty |
| CommandText.QuoteInValueBreaksOptions | plugins/module_utils/mfdp_users_util.py:56-65 | a value holding a double quote is not escaped, so whatever follows it, the option read at its place is not that value whole |
| MfdpUsersUtil.CreateQuoteBreaksOptions | plugins/module_utils/mfdp_users_util.py:56-65 | a double quote in any value the create command writes (one of the four required ones, or a set description or password) means the command is not read back as its options |
| MfdpUsersUtil.CreateCommandOptionsIff | plugins/module_utils/mfdp_users_util.py:56-65 | the create command reads back as exactly its options if and only if no value it writes holds a double quote |
| MfdpUsersUtil.RemoveCommandOptions | plugins/module_utils/mfdp_users_util.py:83 | the remove command reads back as `-name` with the web user name exactly when that name holds no double quote |
| MfdpUsersUtil.Classify | plugins/module_utils/mfdp_users_util.py:67-79 | in check mode the outcome is unchanged without a run; otherwise a stderr holding the marker is unchanged whatever the exit code, a nonzero exit code is fatal with the command and stderr in the message, and only exit code 0 without the marker is a change; the command is always returned |
| MfdpUsersUtil.CreateUser | plugins/module_utils/mfdp_users_util.py:50-79 | returns the create command, and reports a change exactly when not in check mode, the exit code is 0 and stderr does not say the account already exists |
| MfdpUsersUtil.RemoveUser | plugins/module_utils/mfdp_users_util.py:82-96 | returns the remove command, and reports a change exactly when not in check mode, the exit code is 0 and stderr does not say the account does not exist |
| MfdpUsersUtil.CheckModeIgnoresExecutor | plugins/module_utils/mfdp_users_util.py:67-85 | in check mode create and remove report no change and do not depend on what a run would have returned |
| MfdpUsersUtil.BenignRaceIsUnchanged | plugins/module_utils/mfdp_users_util.py:72-91 | with the benign marker in stderr, create and remove report no change and no failure, whatever the exit code |
| MfdpUsers.EscapeHead | plugins/modules/mfdp_users.py:120 | the escape never shortens the key and keeps its first character, so a leading `*` is left alone |
| MfdpUsers.EscapeChangesIff | plugins/modules/mfdp_users.py:120 | the escape changes the key if and only if it holds `|*`, and then makes it longer |
| MfdpUsers.EscapeRoundTrip | plugins/modules/mfdp_users.py:120 | replacing `|\*` by `|*` in the escaped key gives the key back when it holds no backslash: the escape only inserts a backslash between `|` and `*` |
| MfdpUsers.EscapeCollides | plugins/modules/mfdp_users.py:120 | the escape is not one-to-one: OS groups `*` and `\*` give the same web user name |
| MfdpUsers.RunModule | plugins/modules/mfdp_users.py:118-152 | fails when the cell server is not installed, without reading the listing; passes a listing failure on; otherwise reports the name, state and escaped web user name, and reports a change exactly when not in check mode and the account's presence differs from the desired state |
| MfdpCellUtil.PatternMatchesIff | plugins/module_utils/mfdp_cell_util.py:11 | `re.match(r'^\S+$', s)` succeeds if and only if `s` is a nonempty run of non-whitespace characters, optionally followed by one newline |
| MfdpCellUtil.ArgumentValidator | plugins/module_utils/mfdp_cell_util.py:8-13 | at most one error message, always the no-spaces message, and none exactly when the client is unset or empty or matches the pattern |
| MfdpCellUtil.TrailingNewlinePasses | plugins/module_utils/mfdp_cell_util.py:11 | a client name ending in one newline passes the check |
| MfdpCellUtil.WhitespaceFails | plugins/module_utils/mfdp_cell_util.py:11 | whitespace inside or in front, two trailing newlines, or a newline alone fail the check |

## Left out

- The command runner `execute_command` is not part of this model. It is imported from `mfdp_common_util`, which does not define it. The runner's result `(rc, out, err)` is an input.
- `is_mfdp_installed` hashes a fixed file through `module.sha1`. Whether the cell server is installed is an input.
- `fail_json` and `exit_json` end the module. Here they are an `Err` result and an early return. The extra result fields that `fail_json(..., **result)` carries when the cell server is missing are not modelled.
- RunModule: line 120 writes the web user name into the `params` dictionary in place. The model keeps it in a local value instead. Lines 127 and 133 read the entry back inside `run_module`, where the model uses that local value. Nothing after `run_module` reads the entry.
- RunModule: the `module.log` call at line 134 is not modelled.
- TypeOf: `isupper` is modelled for ASCII and Latin-1 characters only. Other cased Unicode characters count as uncased, because Unicode case tables are out of scope.
- CreateCommandOptions: stated only for values without a double quote. Values are not escaped, and CreateQuoteBreaksOptions proves that a double quote in any value breaks the read-back.
- CreateBaseOptions: stated only for the four required values without a double quote. CreateQuoteBreaksOptions covers a double quote in any of them.
- CreateCommandOptions, RemoveCommandOptions: the reader `Options` splits only at double quotes and reads backslash, `$` and backquote as ordinary characters. A shell, or a `shlex`-style splitter, would treat a backslash before `"` or `\` as an escape, so a value such as `a\\b` or one ending in `\` would not reach `omniusers` unchanged. How the command line is split into arguments depends on `execute_command`, which is not part of this model.
- RemoveCommandOptions: the read-back is exact only for names without a double quote, and it fails for every other name.
- `str()` around the client in `argument_validator` is the identity on a text value, and the model takes the client as text.
- `create_user` reads `params["dp_group"]` (mfdp_users_util.py:57), while `mfdp_users` declares a list option `dp_groups` (mfdp_users.py:160). The model takes `dp_group` as a plain text input.
- `mfdp_facts` and `mfdp_cell` are Ansible glue around the functions modelled here.
- The modules' own documentation promises three things the code does not do. The model follows the code each time:
  - `plugins/modules/mfdp_users.py:19` documents the name as that of the user "to create, remove or modify", but no code path modifies an account;
  - `plugins/modules/mfdp_cell.py:36` says name, group and client are forced to lowercase, but no code lowercases them;
  - `plugins/modules/mfdp_users.py:67-68` declares full check-mode support, but in check mode `run_module` returns early and reports no change where a change is due.
- `run_module` never calls `create_user` or `remove_user`. It only sets `changed`, and the model does the same.
