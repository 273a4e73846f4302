# run / vmc: task dispatch and virsh helpers in Dafny

This project models the core of a small task-runner repository:

- **vmc.py** is a command-line tool for libvirt virtual machines. Its `_main` lists the script's public functions or calls one. `_parse_kwargs` splits the trailing arguments into positionals and a `--flag[=value]` map. The readers of `virsh` output turn a listing into a name → running table and pick out an address, a vCPU count or a disk path. `mem`, `gpu`, `rm` and `stop` build the shell commands they issue.
- **run.py** is the Python runner. It lists the callables of `./Runfile.py`, or writes a template when there is none. It calls a task from the Runfile, or from its own globals when `LOCAL=1`.
- **run.js** is the JavaScript runner. It lists or calls the exports of `./Runfile.js`. A task name starting with `.` is taken from run.js's own exports. Its exported `complete` prints the export names that start with the word before the cursor.

The output of a shell command, the environment variables and a loaded script are all parameters. Running a command is never modelled: a command appears only as its text, and a call to a task appears only as an outcome value.

A script's top-level names are a `Namespaces.Namespace`: a sequence of (name, kind) pairs in definition order. The kind is callable, None/undefined, another falsy value or another value. A JavaScript module namespace is the subset type `RunJs.ModuleNamespace`, whose names ascend in code-unit order. That is the order `Object.keys` gives for a module namespace object.

Modules, one per file:

- `Wrappers`: `Option`, `Result` and the Python/JavaScript exceptions that can be raised.
- `Text`: Python's `str.strip`, `str.split` with one separator, `str.join` and `in`. Whitespace follows `str.isspace`.
- `Numerals`: Python's `str(int)`, and `int(text)` in base 10 with sign, surrounding whitespace and single underscores. The whitespace `int()` skips is narrower than `str.isspace`: it leaves out U+001C to U+001F.
- `Namespaces`: namespaces, lookup and filtered listing.
- `OrderedMaps`: Python's insertion-ordered `dict` as an association list.
- `VmcArgs`: `_parse_kwargs`, written as a loop method that is proved equal to a fold.
- `VmcMain`: `_main`, with its listing loop.
- `Virsh`: `_get_vm_list` (a loop method), `_get_ip_of_vm`, `_get_cpu_count`, `_get_hdd` and `_change_name_to_ip`.
- `VmcCommands`: `mem`, `gpu`, `rm` and `stop`.
- `RunPy`: run.py's `main` decisions.
- `RunJs`: run.js's `complete`, `printFunctions`, `runTask` and `main`.

## Code and design description disagree

The model follows the code in each case below.

- **A second `=` in a flag.** The design says a `--key=value` token is split at its first `=`. vmc.py:222 unpacks `arg.split('=')` into two names, so `--k=v=w` raises ValueError. See `VmcArgs.SecondEqualsFails`.
- **Unknown task names.** The design describes a reserved "not found" exit status. The code has none:
  - vmc.py:231 raises KeyError.
  - run.py:105-107 prints `invalid function: <name>`, then the listing, and exits 0.
  - run.js:55 prints every export and raises nothing.
- **Private names.** The design lists only names without the private `_` prefix. That holds for vmc.py:228 only. run.py:7 lists every callable, and run.js:29-31 lists every export. Private callables can be invoked everywhere.
- **Imported functions.** The design lists only functions defined in the script itself. The code lists anything callable, imported functions and classes included.
- **Literal command tasks.** The design allows a string to be a literal shell-command task. The code has no such kind:
  - vmc.py:232 ignores a non-callable.
  - run.py:99 and run.py:104 call it and raise TypeError.
  - run.js:56 raises TypeError for a truthy non-function.
- **Return values.** The design turns a task's return value into the exit status. run.py and run.js drop it, and vmc.py:234 drops it too.
- **Flag classification in the runners.** The design classifies trailing arguments into positionals and flags. run.py:104 and run.js:56 pass them through as positionals, unchanged.

## Model

| member | source | states |
|---|---|---|
| Text.StripKeepsMiddle | vmc.py:22 | `strip()` keeps a contiguous middle slice of the text; everything removed on either side is whitespace |
| Text.Strip | vmc.py:113 | the stripped text neither starts nor ends with whitespace |
| Text.Split | vmc.py:25 | `split(sep)` gives one more piece than there are separators, and no piece contains the separator |
| Text.JoinSplit | vmc.py:71 | joining the pieces of `split(sep)` with `sep` gives back the original text |
| Text.SplitJoin | vmc.py:72 | splitting a join of separator-free pieces gives back the pieces |
| Text.LastPiece | vmc.py:115 | `split(sep)[-1]` is what follows the last separator |
| Numerals.ShowNat | vmc.py:58 | `str(n)` of a natural number is non-empty and all digits, and starts with `0` only for 0 itself, so it has no leading zero |
| Numerals.ShowNatUnique | vmc.py:58 | `str(n)` is the only digit text without a leading zero whose value is `n` |
| Numerals.ParseUnsigned | vmc.py:78 | `int()` reads a digit string, underscores between digits allowed, as its decimal value |
| Numerals.ParseNegative | vmc.py:78 | `int()` reads a minus sign followed by digit groups as the negated value |
| Numerals.ShowInt | vmc.py:58 | `str(i)` is non-empty, all digits except a leading `-`, which appears exactly for a negative number; there is no leading zero, before or after the `-` |
| Numerals.IntSpaceIsSpace | vmc.py:78 | the whitespace `int()` skips is `str.isspace` less U+001C to U+001F |
| Numerals.SeparatorBeforeNumber | vmc.py:78 | `int('\x1c5')` raises ValueError, although `strip()` of that text is `5` |
| Numerals.ParseInt | vmc.py:78 | `int()` accepts only text that ends in a digit once its own whitespace is removed, and yields a negative number only after a leading `-` |
| Numerals.ParseShowInt | vmc.py:57-58 | `int(str(i)) == i` for every integer, negative ones included (see the digit limit under Left out) |
| Namespaces.Lookup | vmc.py:231 | looking a name up fails exactly when no binding has that name; a result is a binding of the namespace |
| Namespaces.Select | vmc.py:227-228 | a filtered listing has at most one name per binding, and each name is a name of the namespace |
| Namespaces.SelectMembers | vmc.py:227-228 | a filtered listing holds a name exactly when some binding with that name passes the filter |
| Namespaces.SelectInOrder | vmc.py:227-228 | a filtered listing keeps the namespace's order |
| Namespaces.LookupDistinct | run.py:103-104 | with distinct names, looking up a binding's name finds that binding's value |
| OrderedMaps.Get | vmc.py:213 | `d[k]` finds a value exactly when `k` is a key |
| OrderedMaps.Put | vmc.py:27 | after `d[k] = v` the pair `(k, v)` is in the dictionary, which grows by at most one entry |
| OrderedMaps.PutGet | vmc.py:27 | after `d[k] = v`, `d[k]` is `v` and every other key keeps its value |
| OrderedMaps.PutKeys | vmc.py:27 | `d[k] = v` appends `k` to the key order when it is new and leaves the order alone when it is already present |
| OrderedMaps.PutDistinct | vmc.py:27 | assignment never duplicates a key |
| VmcArgs.ClassifyToken | vmc.py:219-223 | a token is positional exactly when it lacks the `--` prefix; a flag key keeps `--` and has no `=`; a bare flag has value ""; `key=value` recombines to the token; two or more `=` cannot be unpacked |
| VmcArgs.Classify | vmc.py:215-224 | classifying only ever fails with ValueError |
| VmcArgs.ParseKwargs | vmc.py:215-224 | the loop over the tokens computes the left-to-right classification, stopping at the first bad token |
| VmcArgs.ClassifySnoc | vmc.py:218-223 | one more token extends the classification by one loop turn |
| VmcArgs.ClassifyFails | vmc.py:222 | classification fails exactly when some `--` token has two or more `=` |
| VmcArgs.ClassifyFailure | vmc.py:222 | a single bad token makes the whole call raise ValueError |
| VmcArgs.ClassifyPositionals | vmc.py:219 | the positionals are exactly the tokens without `--`, in their original order |
| VmcArgs.ClassifyFlagKeys | vmc.py:220-223 | a key is in the flag map exactly when some token is a flag with that key, `--` included |
| VmcArgs.ClassifyLastFlagWins | vmc.py:223 | a repeated flag keeps the value of its last occurrence |
| VmcArgs.ClassifyExample | vmc.py:215-224 | `a --x --y=1 b` gives positionals `a, b` and flags `--x → ""`, `--y → "1"` |
| VmcArgs.SecondEqualsFails | vmc.py:222 | `--k=v=w` raises ValueError; the token is not split at its first `=` |
| VmcMain.ListTasks | vmc.py:227-228 | the listing loop prints the globals that are callable and not `_`-prefixed, in definition order |
| VmcMain.Dispatch | vmc.py:225-234 | `_main` lists exactly when argv has fewer than two entries; it raises KeyError with the name exactly when the name is unbound; it invokes only a callable, under the name given; it ignores only a bound non-callable; its only other error is ValueError |
| VmcMain.RunMain | vmc.py:225-234 | `_main` lists with fewer than two argv entries; otherwise it raises KeyError for an unbound name, ignores a non-callable, or calls the callable with the classified arguments |
| VmcMain.ListingIsPublicTasks | vmc.py:226-229 | with no task name, a name is printed exactly when it is a callable global without `_`, and the names keep definition order |
| VmcMain.UnknownTaskRaises | vmc.py:231 | an unbound task name raises KeyError with that name |
| VmcMain.NonCallableIgnored | vmc.py:232 | a name bound to a non-callable does nothing, whatever the arguments |
| VmcMain.CallableInvoked | vmc.py:232-234 | a callable gets the classified positionals and flags, or the run raises ValueError; a `_`-prefixed callable is invoked although it is never listed |
| Virsh.Fields | vmc.py:25-26 | the fields of a line are non-empty and contain no space |
| Virsh.FieldsOfColumns | vmc.py:25-26 | the fields of a line of space-free words separated by runs of spaces, with spaces before and after, are exactly those words, in order |
| Virsh.RowEntry | vmc.py:26-27 | a row yields a (name, running) entry exactly when it has at least three fields |
| Virsh.RowEntryOfColumns | vmc.py:26-27 | a row laid out in columns yields its second column as the name and whether its third is `running`; with fewer than three columns it yields none |
| Virsh.ListRows | vmc.py:22 | the rows read are lines of the stripped output, so none contains a newline |
| Virsh.ListRowsOf | vmc.py:21-22 | output made of two header lines, the rows and trailing whitespace gives exactly those rows, in order, and the table is read from them |
| Virsh.NoDomainsListed | vmc.py:21-28 | output with only the two header lines gives no row and the empty table, without error |
| Virsh.VmList | vmc.py:20-28 | a table read without error never holds a name twice, and the only error is ValueError |
| Virsh.GetVmList | vmc.py:20-28 | the loop over the rows after the two header lines computes the table fold, with ValueError for a short row |
| Virsh.TableFails | vmc.py:26 | reading the table fails exactly when some row has fewer than three fields, and the error is ValueError |
| Virsh.TableFailure | vmc.py:26 | one short row makes the whole listing raise ValueError |
| Virsh.TableDistinct | vmc.py:23-27 | the table never holds a name twice |
| Virsh.TableMembers | vmc.py:24-27 | a name is in the table exactly when some row names it |
| Virsh.TableLastRowWins | vmc.py:27 | a name's running flag comes from the last row that names it |
| Virsh.LastPieceOfStripped | vmc.py:113 | `text.strip().split(sep)[-1]` never contains the separator |
| Virsh.LastLine | vmc.py:113 | only the last line of the stripped output is looked at |
| Virsh.IpOfRow | vmc.py:114-116 | an address contains neither `/` nor a space |
| Virsh.GetIpOfVm | vmc.py:111-116 | an address is found exactly when the last line mentions `ipv4`, and it has no `/` or space |
| Virsh.IpOfAddressRow | vmc.py:114-116 | an `ipv4` row ending in `address/prefix` yields the address |
| Virsh.IpOfInterfaceRow | vmc.py:111-116 | output whose last row mentions `ipv4` and ends in `address/prefix`, followed by whitespace, yields the address |
| Virsh.GetCpuCount | vmc.py:75-78 | blank output gives no count: `int('')` raises ValueError |
| Virsh.CpuCountOfLine | vmc.py:75-78 | a line ending in the decimal count, then whitespace, reads back as that count |
| Virsh.GetHdd | vmc.py:185-187 | the disk path is a field without spaces |
| Virsh.HddOfLine | vmc.py:185-187 | a line ending in a path, then whitespace, reads back as that path |
| Virsh.ChangeNameToIp | vmc.py:139-143 | a path without `:` is returned unchanged; exactly one `:` succeeds; two or more raise ValueError |
| Virsh.RemotePath | vmc.py:141-143 | `vm:file` becomes `root@<address of vm>:file`, with `None` printed when the domain has no address |
| VmcCommands.Mem | vmc.py:54-60 | without a domain `free -h` is shown; without a size TypeError is raised; a size `int()` rejects raises ValueError; otherwise the XML gives the size times 1024·1024 KiB and `virsh edit` runs on the domain |
| VmcCommands.MemSizeRoundTrip | vmc.py:57-58 | for any integer GiB, the KiB count printed in the XML reads back as GiB · 1024 · 1024 |
| VmcCommands.HostDevArgs | vmc.py:71 | one `--host-dev` option per device |
| VmcCommands.Gpu | vmc.py:67-73 | without a domain `lspci` is run; without devices AttributeError is raised; otherwise all host devices are removed, then the comma-separated devices are added |
| VmcCommands.HostDevArgsSplit | vmc.py:71-72 | the words after `--add-device` alternate `--host-dev` and a device, one pair per device |
| VmcCommands.GpuAttachesEachDevice | vmc.py:70-72 | the devices attached are exactly the comma-separated ones asked for, and they join back into the argument |
| VmcCommands.Rm | vmc.py:202-204 | one `virsh undefine` per domain, in order, with `--remove-all-storage` exactly when `--rs` was given |
| VmcCommands.StopPlan | vmc.py:212-213 | a failure of stop's loop is a KeyError |
| VmcCommands.Stop | vmc.py:209-213 | the loop computes the stop plan over all listed domains with `--all`, else over the named ones; a listing that cannot be read fails first |
| VmcCommands.StopFailureSticky | vmc.py:212-213 | once a target raises, later targets change nothing |
| VmcCommands.StopFails | vmc.py:213 | stop fails exactly when some target is not listed, and the KeyError names an unlisted domain |
| VmcCommands.StopDestroysOnlyRunning | vmc.py:213 | every command issued destroys a target listed as running |
| VmcCommands.StopKnownTargets | vmc.py:212-213 | with every target listed, stop destroys exactly the running ones, in order, and does not fail |
| VmcCommands.StopAllDestroysRunning | vmc.py:211-213 | `stop --all` never raises KeyError and destroys every running domain, in listing order |
| RunPy.ListOrGenerate | run.py:49-53 | the tasks are listed exactly when `./Runfile.py` exists; otherwise the template is generated |
| RunPy.RunLocalTask | run.py:96-100 | a local call happens exactly for a callable global, with the given arguments; nothing happens exactly when the name is unbound or bound to None; TypeError is raised exactly for any other bound value, and nothing else can happen |
| RunPy.RunRunfileTask | run.py:101-107 | a Runfile call happens exactly for a callable attribute, with the name and arguments unchanged; the listing is printed exactly when the Runfile exists and lacks the name; FileNotFoundError is raised exactly without a Runfile, and TypeError exactly for a bound attribute that is not callable |
| RunPy.RunMain | run.py:109-117 | with no task name, run.py lists or generates; a call passes argv[1] and the remaining arguments unchanged, and it is local exactly when `LOCAL` is "1" |
| RunPy.ExitStatus | run.py:119 | the status is 0 exactly when no exception escaped; a task's return value plays no part |
| RunPy.GetFunctionsExact | run.py:6-7 | `get_functions` lists exactly the callable names, `_`-prefixed ones included, in namespace order |
| RunPy.NoTaskListsOrGenerates | run.py:111-113 | with no task name, the Runfile's callables are listed, or the template is created when there is no Runfile, whatever `LOCAL` says |
| RunPy.LocalOnlyWhenOne | run.py:115-117 | unless `LOCAL` is exactly "1", run.py's globals play no part and the task comes from the Runfile |
| RunPy.LocalIgnoresRunfile | run.py:115-116 | with `LOCAL=1` the Runfile is not consulted |
| RunPy.RunfileTaskCalled | run.py:103-104 | a Runfile callable is called with the trailing arguments as positionals, unchanged and in order, and the run exits 0 |
| RunPy.InvalidFunctionListed | run.py:105-107 | a missing name prints `invalid function: <name>` and then the full listing, and the run exits 0 |
| RunPy.LocalTaskCalled | run.py:97-99 | with `LOCAL=1`, a callable global is called with the trailing arguments |
| RunPy.UnknownLocalTaskDoesNothing | run.py:97-98 | with `LOCAL=1`, an unbound name silently does nothing and the run exits 0 |
| RunPy.MissingRunfileRaises | run.py:102 | without a Runfile, a task name outside `LOCAL=1` raises FileNotFoundError and the run exits 1 |
| RunPy.NonCallableRaises | run.py:96-104 | a bound value that is not callable (under `LOCAL=1`, one that is not None either) is called anyway, raises TypeError, and the run exits 1 |
| RunJs.PrintFunctionsExact | run.js:28-32 | exactly the export names starting with the prefix are printed, in key order, so in ascending order |
| RunJs.EmptyPrefixPrintsAll | run.js:28 | the default prefix `''` prints every export |
| RunJs.PrintFunctions | run.js:28-32 | every printed name starts with the prefix and is an export name; no more names than exports are printed |
| RunJs.ListFunctions | run.js:24-27 | the names are printed, or a missing file makes the import fail |
| RunJs.CompletionPrefix | run.js:10-12 | the completed word contains no space |
| RunJs.Complete | run.js:8-14 | `complete` rejects exactly when `COMP_LINE` is unset, with TypeError; a missing Runfile leaves an unhandled rejection while `complete` itself resolves; every name printed is an export of the Runfile |
| RunJs.CompleteUsesTextBeforeCursor | run.js:10 | only the text before `COMP_POINT` matters, and an unset `COMP_POINT` means the whole line |
| RunJs.CompleteNegativePoint | run.js:10 | a negative `COMP_POINT` counts back from the end of the line, as `slice` does |
| RunJs.CompletesLastWord | run.js:11-13 | the word completed is what follows the last space |
| RunJs.CompletesSingleWord | run.js:11-13 | a line without spaces is completed as a whole |
| RunJs.CompleteAfterSpace | run.js:10-13 | a cursor just after a space completes the empty word, so every export is printed |
| RunJs.RunTask | run.js:52-57 | a call happens exactly for a function export, with the name and arguments unchanged; the import rejects with FileNotFound exactly without a Runfile; TypeError exactly for a truthy export that is not a function; every export is listed exactly for a missing or falsy one |
| RunJs.RunMain | run.js:59-71 | a call forwards the trailing arguments unchanged; it targets run.js exactly when the name starts with `.`, and then the name loses that character and is one of run.js's exports; the file is created only when there is no task name and no Runfile |
| RunJs.NoNameListsOrCreates | run.js:62-65 | with no task name, every export of `./Runfile.js` is listed when it exists; otherwise the file is created |
| RunJs.DotNameRunsSelf | run.js:66-70 | a name starting with `.` loses exactly that character and is resolved in run.js's own exports, whatever `./Runfile.js` holds |
| RunJs.CompletionHookCallsComplete | run.js:66-70 | the completion hook `run.js .complete` calls the exported `complete` with the remaining arguments |
| RunJs.SelfUnexportedListsExports | run.js:54-55 | a run.js function that is not exported, such as `main`, cannot be reached; its exports are listed instead |
| RunJs.RunfileTaskCalled | run.js:54-56 | a Runfile export that is a function is called with the trailing arguments, unchanged and in order |
| RunJs.MissingTaskListsAll | run.js:55 | a missing or falsy export prints every export name and raises nothing |
| RunJs.NonFunctionExportRaises | run.js:54-56 | a truthy export that is not a function is called anyway, and `main` rejects with TypeError |
| RunJs.MissingRunfileRejects | run.js:53 | a task name without a Runfile makes `main` reject with FileNotFound |

## Left out

- Running shell commands (`sh`, `sh_out`, vmc.py:8-18): process spawning, pipes and timeouts are not modelled. Command output is a string parameter, and a command the code would run appears as its text.
- Loading scripts (`importlib` in run.py:13-21, `import()` in run.js:25 and run.js:53): a loaded script is given as a namespace, or as `None` when the file does not exist. These are not modelled:
  - a script that exists but fails to load;
  - the cwd-based path of the Runfile;
  - the attributes `hasattr` finds on every module object (`__class__` and the like), which are absent from `vars()`.
- The globals of vmc.py and run.py are passed in, not spelled out, because the interpreter adds its own entries (`__name__`, `__doc__` and the like). Only run.js's two exports are written down, as `RunJs.SelfExports`.
- What a called task does: an outcome records only that a task is called and with which arguments. A task's output, exceptions, `sys.exit` and signature mismatches are not modelled (for example, an unexpected keyword flag raises TypeError inside the call).
- Installers and file writers (`install`, `install_bash_complete`, `generate_script`, `createRunfile`, `_write_text_file`, the bash scripts): file and shell I/O. The template texts are not modelled; only the printed "created" message is.
- `ssh`, `_wait_host`, `run`, `start`, `cpu`, `info`, `vm_info`, `fork`, `scp`: shell wrappers and polling loops around I/O and sleeping.
- The `input()` pause in `mem` (vmc.py:59): interactive I/O.
- `_get_memory` and `_get_pci_devices`: XML parsing and float division.
- `ls`: column formatting of display output.
- Numerals.ParseInt: Python's `int()` also accepts non-ASCII decimal digits; the model reads ASCII digits only.
- Numerals.ParseInt: the limit on integer-string conversion of CPython 3.11 and later is not modelled. There, `int(text)` raises ValueError for more than 4300 digits, and `str(n)` does the same for a number that long. `ParseInt` and `ShowInt` accept any length.
- Numerals.ParseShowInt: holds for every integer in the model. Under the 4300-digit limit above, Python's round trip holds only for integers of at most 4300 digits.
- VmcCommands.MemSizeRoundTrip: the same limit applies. A size whose KiB count has more than 4300 digits makes Python's f-string raise ValueError, and the model does not show that.
- JavaScript strings are modelled as sequences of characters, not UTF-16 code units. This differs from JavaScript only for characters outside the Basic Multilingual Plane, both in `slice` and in the ordering of module keys.
- RunJs.Complete: the names are printed after `complete` has resolved, because `listFunctions` is not awaited. The model records what is printed, not when. A failed import is recorded as an unhandled rejection: `main`'s `catch` does not see it, and how the runtime reports it is not modelled.
- RunJs.Complete: `COMP_POINT` is given already converted to an integer. JavaScript's string-to-number conversion is not modelled, including NaN and Infinity.
- RunJs.RunMain: the exit status is not modelled. A rejection that reaches `main`'s `catch` is printed by `console.error` and recorded as a failure outcome; the one left unhandled by `complete` is recorded separately.
- Virsh.ChangeNameToIp: the output of `virsh domifaddr` for each domain is a function parameter, because running the command is not modelled.
