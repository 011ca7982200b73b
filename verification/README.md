# sysfs-search in Dafny

A model of the device-discovery core of `sysfs-search`, a small Rust tool that finds a
SIMCom SIM7600 cellular modem under `/sys`. It walks the sysfs tree for marker files,
filters the candidate device paths, asks `udevadm info -q property` about each one, and
reports the first TTY number of the modem and how many TTYs it has.

The model is functional. The filesystem is an immutable tree (`DirWalk.Node`): a file, or
a directory with its entries in `read_dir` order. The path of an entry is its directory's
path, a `/`, and its name. `udevadm` is a function parameter from a path to a command
result. Strings are `seq<char>` and are taken to be ASCII, so Rust's byte offsets are
character indices.

Modules, one per concern:

- `Base`: `Option` and Rust's `u32`.
- `Text`: `str::find` and `str::contains`, with a declarative description of "first occurrence".
- `FilterChain`: the `retain(|x| x.contains(token))` chain both `search` functions apply after the walk.
- `DirWalk`: `visit_dirs`, in both of its variants. `Mark.Parent` records the directory being read (`src/sysfssearch.rs`). `Mark.Entry` records the matching entry itself (`src/main.rs`).
- `SysfsSearch`: `get_property(base_str, key)` and `search` of `src/sysfssearch.rs`.
- `MainSearch`: the free `search` of `src/main.rs`, with its fixed depth budget of 7.
- `SimCom`: `find_simcom_dev`, its criteria, the `u32` parse of the TTY numbers, and the minimum/count report.

Behaviour the code has, which the model keeps:

- A directory is skipped when its name CONTAINS `subsystem`, `driver`, `firmware_node` or `port`. The name does not have to equal one of them, so `usbport1` is skipped too.
- A directory the walk enters is never compared with the filter name, because of the `else if`. A directory that is not entered is compared, whether it was excluded or the budget was spent.
- `get_property` skips exactly one character after the key, whatever that character is. It does not look for `=`. The key is found by its first occurrence, with no boundary check, so `B` matches inside `AB`.
- `search` is not idempotent. Each call queries `udevadm` again and appends the usable outputs to the buffer again.
- `search` with an empty filter chain returns `None` and leaves the buffer alone. With no filter chain, the root path itself is the only candidate.

## Model

| member | source | states |
|---|---|---|
| Text.Find | src/sysfssearch.rs:61-65 | `str::find` returns `Some` exactly when the pattern occurs, and then the index of its first occurrence |
| Text.Contains | src/sysfssearch.rs:44-47 | `str::contains` holds exactly when the pattern occurs somewhere in the string |
| FilterChain.Retain | src/sysfssearch.rs:108 | `retain` keeps an order-preserving subsequence, holding exactly the paths that contain the token |
| FilterChain.RetainMultiplicity | src/sysfssearch.rs:108 | a path containing the token is kept as many times as it occurs, any other path not at all |
| FilterChain.RetainLoop | src/sysfssearch.rs:108 | the loop form of `retain` computes the same list as `Retain` |
| FilterChain.ApplyFilters | src/sysfssearch.rs:104-110 | after the chain, the list is an order-preserving subsequence of its input and holds exactly the input paths that contain every token |
| FilterChain.ApplyFiltersMultiplicity | src/sysfssearch.rs:104-110 | a path containing every token is kept as many times as it occurs in the input, any other path not at all |
| FilterChain.ApplyFiltersKeepsAll | src/sysfssearch.rs:104-110 | the chain of `retain` calls equals one pass that keeps, in order, the paths containing every token |
| FilterChain.ApplyFiltersOrderFree | src/main.rs:81-87 | swapping two groups of tokens does not change the result: the tokens form an AND |
| FilterChain.ApplyFiltersCompose | src/main.rs:81-87 | running the chain in two parts equals running it over all the tokens at once (the tokens form an AND) |
| FilterChain.ApplyFiltersShrinks | src/main.rs:84-86 | retaining never lengthens the path list |
| DirWalk.VisitDirs | src/sysfssearch.rs:36-58 | the loop with its recursive calls only appends to `result`, and what it appends is the walk `Visit` |
| DirWalk.VisitRecords | src/sysfssearch.rs:44-53 | a path is recorded iff some entry that is not entered is named `filter` and records it, or some entered directory records it one level down with budget `limit-1` |
| DirWalk.VisitPathsUnder | src/sysfssearch.rs:48-53 | recorded paths lie in the walked directory; in `main.rs` mode they lie strictly below it and end in `/filter` |
| DirWalk.DescendedNotRecorded | src/sysfssearch.rs:48-50 | in any directory whose entries have distinct names, an entry at any position that the walk enters is not recorded for its own name even when that name equals `filter` (no `/` in it), under either recording choice |
| DirWalk.ZeroLimitVisitsOneLevel | src/sysfssearch.rs:47-53 | with budget 0 nothing is entered, and every entry named `filter` is recorded, directories included |
| DirWalk.VisitIgnoresBelowLimit | src/sysfssearch.rs:47-49 | the result does not change when everything more than `limit` levels down is removed |
| DirWalk.VisitIgnoresExcluded | src/sysfssearch.rs:44-49 | the result does not change when the contents of every excluded-name directory are removed, at any budget |
| DirWalk.ChainFoundWithinLimit | src/main.rs:59-69 | a marker `n` directories down is found exactly when `n <= limit` |
| SysfsSearch.GetProperty | src/sysfssearch.rs:60-76 | `Some` iff the key occurs and a newline follows the value start; the value is the text from one character after the key's first occurrence to the next newline, and holds no newline |
| SysfsSearch.GetPropertyFindsValue | src/sysfssearch.rs:66-75 | conversely, the text after the first occurrence of the key, up to a newline, is exactly what the parser returns |
| SysfsSearch.GetPropertyAbsentKey | src/sysfssearch.rs:61-64 | a key that does not occur gives `None` |
| SysfsSearch.GetPropertyExample | src/sysfssearch.rs:60-75 | in `A=1\nB=22\nC=333\n`, key `B` gives `22` |
| SysfsSearch.GetPropertyExampleAbsent | src/sysfssearch.rs:61-64 | in the same dump, key `Z` gives `None` |
| SysfsSearch.GetPropertyMatchesInsideKey | src/sysfssearch.rs:61-66 | in `AB=1\nB=2\n`, key `B` is found inside `AB` and gives `1` |
| SysfsSearch.GetPropertySkipsAnySeparator | src/sysfssearch.rs:66 | in `B:7\n`, key `B` gives `7`: any one separator character is skipped |
| SysfsSearch.NoLimitMeansMax | src/sysfssearch.rs:95-100 | with no search limit the path list is the one for the limit `u32::MAX` |
| SysfsSearch.NoLimitFindsMarker | src/sysfssearch.rs:95-106 | with no search limit, a marker `n` directories down makes its directory the one candidate exactly when `n <= u32::MAX` |
| SysfsSearch.PathList | src/sysfssearch.rs:88-111 | no filter gives `[path]`; an empty filter gives `None`; otherwise the list is a subsequence of the walk for `filter[0]`, holding exactly the walked paths that contain every later token |
| SysfsSearch.Outputs | src/sysfssearch.rs:112-122 | a string is among the kept outputs iff it is the stdout of a result with status `Some(0)` and some stdout; there are at most as many as paths, and as many when all succeed |
| SysfsSearch.OutputsConcat | src/sysfssearch.rs:112-122 | the outputs of two path lists in a row are the first list's outputs followed by the second's: path order is kept |
| SysfsSearch.OutputsOfOne | src/sysfssearch.rs:113-121 | a single path contributes its stdout exactly when its status is `Some(0)` and it has a stdout, and nothing otherwise |
| SysfsSearch.Search | src/sysfssearch.rs:87-127 | an empty filter returns `None` with the state unchanged; otherwise `Some(buffer)`, with the old buffer kept as a prefix, every appended entry the stdout of a usable result for a candidate path, every such stdout appended, and the appended part the outputs in path order |
| SysfsSearch.SearchAppendsAgain | src/sysfssearch.rs:112-126 | a second `search` appends the same outputs a second time: the call is not idempotent |
| SysfsSearch.SearchSteps | src/sysfssearch.rs:87-127 | the statement-by-statement form of `search` computes the state and the answer of `Search` |
| SysfsSearch.PathListSteps | src/sysfssearch.rs:88-111 | the statement form of the path-list part of `search` computes `PathList` |
| SysfsSearch.TokenLoop | src/sysfssearch.rs:104-110 | the loop over the filter tokens (walk first, then retain) computes the chain over the walk |
| SysfsSearch.AppendOutputs | src/sysfssearch.rs:113-122 | the loop that skips failed or empty results appends exactly `Outputs` to the buffer |
| MainSearch.Search | src/main.rs:76-89 | an empty filter gives `[]`; otherwise the result is a subsequence of the depth-7 walk for `filter[0]`, holding exactly the walked paths that contain every later token |
| MainSearch.SearchReturnsMarkerPaths | src/main.rs:66-69 | every returned path is the matched entry's own path, strictly below the root, ending in `/filter[0]` |
| MainSearch.SearchIgnoresBelowSeven | src/main.rs:83 | nothing more than seven levels below the root affects the result |
| MainSearch.SearchFindsMarkerWithinSeven | src/main.rs:52-87 | a marker `n` directories down is returned exactly when `n <= 7` |
| MainSearch.SearchSteps | src/main.rs:76-89 | the loop form of `search` computes `Search` |
| SimCom.IdsMatchTheirComments | src/simcom.rs:9-10 | `1e0e` is 7694 and `9001` is 36865 in hexadecimal |
| SimCom.ParseU32RoundTrip | src/simcom.rs:34 | `parse::<u32>` of the decimal form of a `u32` gives that number back |
| SimCom.ParseU32RefusesOverflow | src/simcom.rs:34 | the decimal form of a number above `u32::MAX` does not parse |
| SimCom.ParseU32Signs | src/simcom.rs:34 | a leading `+` before digits is accepted; `-`, a lone `+` and the empty string are refused |
| SimCom.Min | src/simcom.rs:34 | `min` returns an element that is at most every element |
| SimCom.Report | src/simcom.rs:34-35 | `TTY_START` is at most every parsed value and equals one of them; `TTY_TOTAL` is the number of values, duplicates included |
| SimCom.FindSimcomDev | src/simcom.rs:23-38 | after the search, the lookup uses key `TTY_NUM` and the criteria `[(VENDOR_ID, "1e0e"), (MODEL_ID, "9001")]` in that order; the state left is the searcher the lookup gives back; no answer gives no report; an answer gives its minimum and count |

## Left out

- I/O errors are not modelled: a failing `read_dir` or entry, which `?` turns into an abort of the whole walk that `search` then ignores (src/sysfssearch.rs:38-39, 106). The tree is always readable.
- A root that does not exist is modelled as a root that is not a directory. Both give an empty walk.
- Non-UTF-8 file names are not modelled: `to_str().unwrap()` would panic on them.
- Symlink cycles are not modelled: a finite tree cannot contain one, and the depth budget is what bounds the real walk.
- Trailing-slash normalisation by `Path::join` and `Path::parent` is not modelled. Paths are taken to be normalised, so the parent of `dir/name` is `dir`.
- `utils::execute_command` is not modelled: it spawns a process, decodes UTF-8 and panics on failure. The `udevadm` call is a function from a path to a status and a stdout, and `stderr` is dropped because `search` never reads it. The exit status is an unbounded integer, not an `i32`.
- The three-argument `get_property(key, criteria)` that `SimCom::get_property` calls is not part of this model, and neither are the `usbdev` key names. The first is a function parameter that, since it takes the searcher by `&mut`, gives back the searcher it leaves along with its answer. The second are fields of `SimCom.UsbKeys`.
- `SimCom.GetProperty` passes the searcher's answer, and the searcher state the lookup leaves, through unchanged. It has no row because its body is the whole of what it says.
- `println!` output is not modelled. `find_simcom_dev` returns its report instead of printing it.
- The dead `SysfsSearch` trait, `USBDevs`, `main` and the shell script in comments are not modelled.
- SysfsSearch.GetProperty: requires that the value start lies within the dump. When the key's first occurrence ends the dump, `base_str[offset..]` panics, and that case is excluded rather than modelled.
- SimCom.FindSimcomDev: requires that an answer, if any, is non-empty and that every value parses as a `u32`. Otherwise `min().unwrap()` or `parse().unwrap()` panics, and those cases are excluded rather than modelled.
