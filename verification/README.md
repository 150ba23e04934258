# The `types` command of the Redfish management CLI, in Dafny

This project models the `types` command of the iLO RESTful management utility
(`src/extensions/COMMANDS/TypesCommand.py`). Before it lists anything, the
command makes sure a client is logged in:

- When the application has a current client and both `-u` and `-p` were given, it fills in
  the client's missing username and password. It never overwrites a value the client has.
- When the client lookup fails, it builds the login command's argument list. Explicit
  `--url`/`-u`/`-p` values are used when any of them is given. Otherwise the configured url,
  username and password are used.
- It then appends `--includelogs` and `--path p` and calls the login command, at most once.

It then prints, or returns, the distinct type names the application offers, in
ascending order. It rejects positional arguments and handles parse failures,
where a help flag succeeds.

Modules:

- `Wrappers` (`wrappers.dfy`): `Option`, standing for Python's `None` or a value.
- `TextOrder` (`text_order.dfy`): Python's string order and `list(set(xs))` followed by
  `sort()`, as the pure function `SortedDistinct`. It is proved sorted, duplicate-free,
  holding exactly the input's values, and the only such sequence.
- `LoginDecision` (`login_decision.dfy`): the login decision as values.
  - `Decide` says whether a login call happens, with which typed `LoginRequest`.
  - `Args` lays that request out as the argument list.
  - `ParseArgs` reads it back.
- `TypesCommand` (`types_command.dfy`): the command itself, as a class over the state it
  touches. That state is the client lookup (`current`, `null` when the lookup raises), the
  configuration, the application's types, the recorded login calls (`logins`) and the writes
  to standard output (`out`). `TypesValidation` follows the source step by step and is proved
  equal to `Decide`/`Args`. `TypesFunction` and `Run` are proved against `ReplyOf`.

Python truthiness of an option or configuration value is `Given`: present and non-empty.
The command line `line` is a string, so `"-h" in line` is a substring test (`Contains`).
A line like `--url my-host --bogus` that the parser rejects therefore counts as asking for help.
The option parser's result is an input (`Parse`). `Encryption.decode_credentials` is a function parameter `decode`.

## Model

| member | source | states |
|---|---|---|
| TypesCommand.TypesCommand.TypesValidation | src/extensions/COMMANDS/TypesCommand.py:100-145 | The login command is called once with `Args` of the decided request exactly when the lookup failed, and otherwise not at all. The local-login notice is written exactly when `LocalLogin` holds. With an existing client and both user and password given, only a missing username/password is set. Nothing else of the client changes. |
| TypesCommand.TypesCommand.ExtendCredentials | src/extensions/COMMANDS/TypesCommand.py:118-133 | Extending by url, `-u user`, `-p password` appends exactly the truthy ones, in that order. This holds for the explicit and the configured source alike. |
| TypesCommand.TypesCommand.TypesFunction | src/extensions/COMMANDS/TypesCommand.py:45-87 | A parse failure returns success when `-h` or `--help` occurs anywhere in the line, as a substring, and raises `InvalidCommandLineErrorOPTS` otherwise, with no state change. Otherwise validation runs on the decoded options before any argument check. A positional argument then raises `InvalidCommandLineError`. Without one, the sorted distinct types are returned, or printed as the heading followed by one line per name. |
| TypesCommand.TypesCommand.Run | src/extensions/COMMANDS/TypesCommand.py:89-98 | Same effects as `typesfunction` without returning types. The status is success unless `typesfunction` raised, in which case that error propagates. |
| TypesCommand.Decoded | src/extensions/COMMANDS/TypesCommand.py:61-63 | When `--enc`, user and password are all truthy, user and password become their decoded values. Otherwise the options are unchanged. No other option ever changes. |
| TypesCommand.ContainsAt | src/extensions/COMMANDS/TypesCommand.py:56 | The help test finds `-h` or `--help` at any position of the line. |
| TypesCommand.ContainsOnlyAt | src/extensions/COMMANDS/TypesCommand.py:56 | The help test holds only when `-h` or `--help` really occurs at some position, so together with `ContainsAt` it is exactly Python's substring `in`. |
| TypesCommand.HelpFlagInsideValue | src/extensions/COMMANDS/TypesCommand.py:55-57 | A rejected line such as `--url my-host --bogus` holds `-h` inside a value, so the reply to its parse failure is the success return code. |
| TypesCommand.FillInKeepsExisting | src/extensions/COMMANDS/TypesCommand.py:112-116 | An existing username or password is never overwritten. Nothing is set unless both user and password were given. When both were given, the client ends up with a value. |
| TypesCommand.LinesAt | src/extensions/COMMANDS/TypesCommand.py:77-79 | The printed lines hold exactly the names, in order, each followed by a line break: write `2k` is name `k` and write `2k+1` is `"\n"`. |
| LoginDecision.LoginIffNoClient | src/extensions/COMMANDS/TypesCommand.py:110-145 | There is exactly one login call when the client lookup failed and none otherwise. With a current client there is also no notice, even with `--includelogs` or `--path` set. |
| LoginDecision.ExplicitOverridesConfig | src/extensions/COMMANDS/TypesCommand.py:117-124 | With any explicit url, user or password, the configuration plays no part. Only the truthy explicit values are forwarded, and every forwarded token is `-u`, `-p` or one of them. |
| LoginDecision.ConfigFallback | src/extensions/COMMANDS/TypesCommand.py:125-142 | With the lookup failed and nothing explicit, the login command's list reads back as exactly the truthy configured url, username and password, the includelogs flag and the path. This holds provided the configured url is not a marker token. |
| LoginDecision.LocalLoginIff | src/extensions/COMMANDS/TypesCommand.py:135-138 | The local-login notice is written exactly when the lookup failed and neither the options nor the configuration give a url, user or password. |
| LoginDecision.ArgsRoundTrip | src/extensions/COMMANDS/TypesCommand.py:118-142 | The argument layout (url, `-u`, `-p`, `--includelogs`, `--path`) reads back to the request it came from, provided the url is not a marker token. |
| LoginDecision.ExplicitLoginReadsBack | src/extensions/COMMANDS/TypesCommand.py:117-145 | When the lookup fails and something is explicit, the login command's list reads back as exactly the explicit values, the includelogs flag and the path. This holds provided the explicit url is not a marker token (`-u`, `-p`, `--includelogs`, `--path`). |
| TextOrder.SortedDistinct | src/extensions/COMMANDS/TypesCommand.py:70-71 | The type list is strictly ascending in Python's string order and holds exactly the values of the application's types. |
| TextOrder.NoDuplicates | src/extensions/COMMANDS/TypesCommand.py:70 | A strictly ascending list has no duplicates. |
| TextOrder.SortedUnique | src/extensions/COMMANDS/TypesCommand.py:70-71 | Two strictly ascending lists with the same values are equal, so the result of `sort()` on `list(set(xs))` is `SortedDistinct(xs)`. |
| TextOrder.SortedDistinctBySet | src/extensions/COMMANDS/TypesCommand.py:70 | The type list depends only on the set of type names, not on their order or repeats. |
| TextOrder.LessTransitive | src/extensions/COMMANDS/TypesCommand.py:71 | The string order used by `sort()` is transitive. |
| TextOrder.LessTotal | src/extensions/COMMANDS/TypesCommand.py:71 | Any two different strings are ordered one way or the other. |

## Left out

- The option definitions (`definearguments`) and the option parser are not modelled. The parser's result is an input: a failure, or parsed options and positional arguments.
- `Encryption.decode_credentials` is an opaque function parameter. Its own failures are not modelled.
- The login command itself is not modelled. Its calls are recorded in `logins` with their argument lists. The application's `types(fulltypes)` is the input `appTypes`, and its failures are not modelled.
- The re-raising of `InstanceNotFoundError` is not modelled, because it passes the error through unchanged.
- The option parser's own output is not in `out`, for example the help text it prints for `-h` before the failure is caught.
- Standard output is a list of writes. Character encoding is not modelled.
- TypesCommand.TypesCommand.TypesValidation: the lookup is a possibly-null client, and `set_username`/`set_password` never fail. The source's bare `except` would also catch a setter failure and then build a login list with a non-null client; that path is not modelled.
- A client object is taken to be truthy, so `not client` is "the lookup failed".
- TypesCommand.TypesCommand.TypesFunction: the in-place `sort()` and `set()` are modelled as the value `SortedDistinct`. The in-place update of the list is not modelled.
- The raw PUT command (`src/extensions/RAW COMMANDS/RawPutCommand.py`) is not part of this model. That includes its input-file reading, `--headers` parsing, `--sessionid` url resolution, BIOS password update and PUT dispatch.
