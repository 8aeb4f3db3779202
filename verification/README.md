# RowdyLauncher decision core, in Dafny

RowdyLauncher is a desktop launcher for Minecraft. Its own logic is small. It has
a login form that authenticates or auto-registers against a local `users` table.
It keeps a per-version launch counter in a `stats` table. It builds a version picker
from release Vanilla versions and stable Fabric versions. It runs a worker thread
that relays installer progress, resolves the id to launch, starts the game and
signals busy and idle.

This project models those decisions as pure functions over immutable state:

- database tables are sequences of rows;
- `SELECT ... WHERE col = ?` followed by `fetchone()` is the first matching row (`Table.FindFirst`);
- the installer, the installed-versions listing and the password digest are parameters.

| module | file | what it models |
|---|---|---|
| `Common` | common.dfy | `Option` and `Result` |
| `Table` | table.dfy | first-match lookup, key uniqueness, key counts |
| `Text` | text.dfy | `str.split("-")`, `[-1]`, and the substring test `in` |
| `Credentials` | credentials.dfy | `auth` in utils.py and its raw-text copy in `launch_game` |
| `Stats` | stats.dfy | the launch-counter upsert |
| `Validation` | validation.dfy | the three empty-field checks |
| `Progress` | progress.dfy | the three progress setters and the triples they emit |
| `Menu` | menu.dfy | the version picker |
| `Worker` | worker.dfy | id resolution and the busy/idle signals of `LaunchThread.run` |
| `Session` | session.dfy | `MainWindow.launch_game` end to end |

The two authentication paths share one decision, `Credentials.Check`. It is given
the value that goes into the password column. `auth` passes the digest of the
password. The copy inside `launch_game` passes the raw text. So the main window
stores and compares plaintext, while `auth` hashes consistently. The model follows
the code and keeps both. `launch_game` is the path the window actually uses.

The stats table in `launch_game` lives in `stats.db` and has two columns,
`(version, launches)`. db_loader.py declares a different `stats` table, with a
third column `release DATE`, in `database.db`; no code reads or writes that
column, so it is not modelled.
The `UPDATE ... WHERE version = ?` raises every row with the label, not only the
first, and `Stats.RecordLaunch` models it that way. While labels are unique, which
`Stats.RecordLaunchKeepsUnique` shows is preserved, this is exactly one row.

The worker picks its branch with the substring test `"Fabric" in version_name` on
the picker text. It then reads `version_dict["version"]` or `version_dict["id"]`.
A mismatch raises `KeyError`, modelled as `Worker.Fault.MissingKey`. The Fabric scan
keeps the last installed id whose final `-`-separated token equals the requested
version. When nothing matches, `v` is never bound, modelled as `Worker.Fault.Unbound`.
A plain game id such as `1.20.1` has no dash, so it is its own last token. If it is
listed after the loader's id, the scan picks it instead (`Worker.VanillaIdCanShadowLoader`).
That depends on the listing order of the versions directory, so it is stated as a
property of the model and not as a finding.

## Model

| member | source | states |
|---|---|---|
| Table.FindFirst | utils.py:6-7 | the lookup returns the first row whose key equals the argument, and None exactly when no row has it |
| Text.Split | main.py:97 | `split("-")` yields at least one piece and no piece contains a dash |
| Text.JoinSplit | main.py:97 | joining the pieces of a split with `-` restores the string |
| Text.SplitJoin | main.py:97 | splitting a `-`-join of dash-free pieces restores the pieces |
| Text.LastTokenIsFinalSuffix | main.py:97 | `split("-")[-1]` is the dash-free suffix after the last dash, or the whole string when there is no dash |
| Text.LastTokenAfterDash | main.py:97 | whatever dash-free text follows a dash at the end is the last token |
| Text.DashFreeIsLastToken | main.py:97 | a string without a dash is its own last token |
| Text.LastToken | main.py:97 | the piece compared with the requested version never contains a dash |
| Text.Contains | main.py:84 | the substring test holds exactly when the needle occurs at some offset |
| Text.ContainsPastPrefix | main.py:84 | a prefix with no character that starts the needle cannot host an occurrence |
| Credentials.Lookup | utils.py:6-7 | the fetched user row is the first row with the login, and absent exactly when no row has it |
| Credentials.Check | utils.py:9-19 | an unseen login appends exactly one row and registers; a known login is refused when its first row's password column differs from the stored form, and accepted otherwise with the table unchanged; no existing row is rewritten |
| Credentials.Auth | utils.py:5-19 | `auth` registers an unseen login with the digest of its password, and for a known login answers Authorized when the stored digest equals the digest of the supplied password and WrongPassword otherwise, leaving the table unchanged in both cases |
| Credentials.AuthPlain | main.py:235-250 | the inline copy registers with the raw password and for a known login answers Authorized when its stored text equals the supplied text and WrongPassword otherwise, leaving the table unchanged |
| Credentials.CheckVerdicts | utils.py:9-19 | the verdict is registration exactly when the login is unseen, the table changes exactly on registration, and only a wrong password yields false |
| Credentials.CheckKeepsLoginsUnique | utils.py:6-15 | logins unique before a call stay unique after it |
| Credentials.RegisteredRowIsFound | utils.py:9-15 | after registration the new row is the first row for that login |
| Credentials.RegisterThenLogin | utils.py:10-19 | after `auth(l, p)` registers `l`, a second `auth(l, p)` is accepted and adds no row |
| Credentials.RegisterThenOtherPassword | utils.py:10-19 | with an injective digest, after `auth(l, p)` registers `l`, `auth(l, q)` for `q != p` is refused and adds no row |
| Stats.RecordLaunch | main.py:260-273 | an unseen label gets a new row `(label, 1)`; otherwise every row with the label gains exactly one launch and every other row is unchanged |
| Stats.RecordLaunchCounts | main.py:260-273 | the count read back for the label is 1 after its first launch and one more than before after any later launch |
| Stats.RecordLaunchOtherLabels | main.py:260-273 | the count read back for any other label is unchanged |
| Stats.RepeatedLaunches | main.py:260-273 | `n` launches of an unseen label leave its count at `n`; of a seen label, `n` above where it was |
| Stats.RecordLaunchRowCounts | main.py:260-268 | a launch adds a row for its label only when it had none, and never changes how many rows any other label has |
| Stats.RecordLaunchKeepsUnique | main.py:260-268 | at most one row per label is preserved by every launch |
| Validation.Validate | main.py:221-229 | both empty gives the both-fields message, only the login empty gives the login message, only the password empty gives the password message, and the request proceeds exactly when both are filled |
| Validation.MessagesDistinct | main.py:221-229 | the three rejection messages differ |
| Progress.Apply | main.py:63-79 | each setter overwrites its own register and leaves the other two as they were |
| Progress.Final | main.py:63-79 | after a run of callbacks each register holds its starting value or a value some callback reported for it |
| Progress.Emissions | main.py:63-79 | one triple is emitted per callback, and the k-th is the register state right after callback k |
| Progress.FinalIsLastKnown | main.py:50-79 | after any callbacks, each register holds the last value reported for it, or its initial value |
| Progress.FinalSnoc | main.py:63-79 | the registers after one more callback are those before it, updated by it |
| Progress.EmissionsCarryLastKnown | main.py:63-79 | the triple emitted for the k-th callback carries, in every field, the last value reported for that field up to that callback |
| Menu.VanillaItems | main.py:159-163 | every Vanilla item comes from a release entry and is labelled `Vanilla <id>`, and every release entry appears |
| Menu.FabricItems | main.py:164-168 | every Fabric item comes from a stable entry and is labelled `Fabric <version>`, and every stable entry appears |
| Menu.VanillaItemsSnoc | main.py:159-163 | one more version at the end of the list adds exactly its item at the end when it is a release, and nothing otherwise, so the items are one per release entry in list order |
| Menu.FabricItemsSnoc | main.py:164-168 | one more Fabric version at the end of the list adds exactly its item at the end when it is stable, and nothing otherwise, so the items are one per stable entry in list order |
| Menu.BuildMenu | main.py:159-171 | an item is in the picker exactly when it is a labelled release or a labelled stable Fabric version, and all Vanilla items precede all Fabric items |
| Worker.Scan | main.py:95-98 | the scan returns the last installed id whose last token equals the version, and keeps the prior binding when none does |
| Worker.Resolve | main.py:84-101 | a Fabric selection resolves to the last matching installed id whenever one matches, and fails as unbound exactly when none matches; a Vanilla selection resolves to the descriptor's id; a descriptor without the branch's key fails with that key |
| Worker.Run | main.py:81-125 | busy is signalled first; the game is launched, with the resolved id and the user name, exactly when resolution succeeds, and otherwise the resolution fault is raised; idle is signalled exactly when it is launched; the emitted progress triples and final registers are those of the callbacks reached (none after a `KeyError`) |
| Worker.RunGuarded | main.py:81-125 | busy then idle are signalled on every path; the launch, with the resolved id and the user name, happens exactly when resolution succeeds, and otherwise the resolution fault is raised; progress is emitted as in the unguarded run |
| Worker.RunGuardedAgrees | main.py:81-125 | the guarded run differs from the run as written only in the final idle signal |
| Worker.StuckBusyOnUnmatchedFabric | main.py:95-125 | a Fabric selection that no installed id matches ends with busy signalled and idle never signalled |
| Worker.VanillaIdCanShadowLoader | main.py:95-98 | with the loader's id listed before the plain game id of the same version, the Fabric scan resolves to the plain game id |
| Worker.PickerItemsRouteToTheirBranch | main.py:84-101 | every Fabric item of the picker, and every Vanilla item whose own id does not contain the word Fabric, reaches the branch whose key its descriptor has, so no `KeyError` is raised |
| Session.LaunchGame | main.py:220-293 | a rejected form changes nothing and sends nothing; a refused password changes no stats and sends nothing; an accepted login counts the launch for the selected label, locks the form and sends the selection with the login to the worker |
| Session.EmptyFormStops | main.py:221-223 | with both fields empty the message is the both-fields message and nothing else happens |
| Session.WrongPasswordStops | main.py:244-248 | a known login with a different stored password gets the wrong-password message and leaves both tables and the worker untouched |
| Session.FirstClickRegistersAndLaunches | main.py:237-293 | an unseen login is registered with its password, the launch is counted and the worker receives the selection |

## Left out

- PyQt widgets, layouts, signal delivery and `QThread` scheduling: UI and concurrency. Emitted signals are sequences in the model.
- sqlite connections, cursors, `commit`, `close` and `CREATE TABLE`, including db_loader.py: the tables are in-memory sequences.
- The model assumes a `users` table exists in `users.db`. `launch_game` never creates one (it creates only `stats` in `stats.db`, main.py:256-258, and db_loader.py creates `users` in `database.db`), so on a fresh `users.db` the `SELECT` at main.py:235 raises before any verdict; that error is not modelled.
- The `minecraft_launcher_lib` calls (`get_version_list`, `get_all_minecraft_versions`, `install_fabric`, `install_minecraft_version`, `get_installed_versions`, `get_minecraft_command`, `get_minecraft_directory`): foreign code. Their results and callbacks are parameters.
- Failures raised inside the installer or the command builder: foreign code. Of the faults raised by the launcher's own code, `KeyError` and unbound `v` are modelled; the `TypeError` of an empty picker is not (next line).
- An empty picker: `Session.LaunchGame` always receives a selected `Menu.Item`, so it cannot represent an empty combo box, which `Menu.BuildMenu([], [])` allows. In the source such a click still validates, authenticates, counts a launch for the label `""` (main.py:260-268) and sends the request (main.py:288-293), and `run` then raises `TypeError` on `None["id"]` (main.py:101); none of this is modelled.
- `subprocess.call`, `uuid1` and the empty token: process spawning and nondeterminism. A launch records only the runnable id and the user name.
- SHA-256 and `hexdigest`: the digest is a function parameter, assumed injective only where a lemma says so.
- The debug `print` loop after the stats update and the `StatsWindow` table: output only.
- Integer widths: the Qt signal carries C `int` values and sqlite `INTEGER` is 64-bit; the model uses unbounded integers.
- Menu.VanillaItems: its own contract states membership in both directions, not the order or multiplicity of the items; Menu.VanillaItemsSnoc states those.
- Menu.FabricItems: its own contract states membership in both directions, not the order or multiplicity of the items; Menu.FabricItemsSnoc states those.
- Menu.BuildMenu: states membership in both directions and that every Vanilla item precedes every Fabric item, not the order or multiplicity of the items inside each half; those are stated for the halves by Menu.VanillaItemsSnoc and Menu.FabricItemsSnoc.
- The `release DATE` column of the `stats` table that db_loader.py declares in `database.db` (db_loader.py:8): `launch_game` uses its own two-column table in `stats.db` (main.py:256-258), and nothing reads or writes `release`.

## Findings

| source | as written | input that shows it | evidently intended | confidence | as-written member | corrected member |
|---|---|---|---|---|---|---|
| main.py:81-125 | `state_update_signal.emit(False)` is the last statement of `run`, so after a fault before it the idle signal is never emitted; whether the window then stays busy or the process is aborted depends on how PyQt handles the exception that leaves the thread, which is not part of this model | Fabric selection `1.20.1` with installed ids `1.20` and `fabric-loader-0.15.7-1.20`: `v` is never bound. The installed list is a parameter here; if the installer always installs the game version `1.20.1` too, that dash-free id matches, and the faults that remain in practice are exceptions from the installer or the command builder, which the model leaves out but which stop `run` before the same last statement | the fault is caught and reported in `run`, and the idle signal is emitted on every path | high; not executed | Worker.Run, Worker.StuckBusyOnUnmatchedFabric | Worker.RunGuarded |
