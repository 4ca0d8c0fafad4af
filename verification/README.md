# find_string_in_files, modelled in Dafny

`find_string_in_files` searches a directory for files that contain a query
string. Case is ignored by default, and recursion is optional. It spreads
the walk over threads, up to a ceiling of `max_threads` in-flight tasks.
This project models the sequential logic under those threads:

- **Line matcher** (`matcher.dfy`, module `Matcher`). ASCII lower-casing of
  the query and of each line when case need not match. Substring containment.
  The rule that a file matches when some successfully read line contains the
  query. `ScanLines` is the line loop that stops at the first matching line.
- **Traversal policy** (`tree.dfy`, module `FileTree`). The filesystem is an
  abstract tree `Node`. A node is a `File` (its path and its lines, or `None`
  when it cannot be opened), a `Dir` (its path and a `Listing` that is
  `Unlistable` or the list of entries, where an entry is `None` when it
  failed to read), or `Other`. `Found` is what a visit appends. The lemmas
  characterise it by where matching files lie (`Reachable`, `Visible`) and
  show that each file is appended once.
- **Walker and admission counter** (`walker.dfy`, module `Walk`). The class
  `Walker` holds the shared `results` list and the in-flight `count`. Its
  recursive `Search` method walks the tree with a `for` loop over the
  directory entries. `Admit` raises the counter when a child may have its
  own task, and `Release` lowers it when that child is done. With the
  threads taken away, both branches do the same visit. `SearchTree` is the
  whole search: it normalises the query, starts the counter at 1, walks from
  depth 0, and reads the counter as the final wait loop does.
- **Worked example** (`scenario.dfy`, module `Scenario`). A three-file tree
  searched in three configurations.
- `wrappers.dfy` holds the `Option` type.

Two points of the code shape what the model can promise:

- The check and the increment of the counter take the lock separately
  (src/main.rs:125-126), so two threads can both pass the check. The model
  is sequential, and the bound it proves holds for the sequential model only.
- `--jobs` is parsed as `usize` (src/main.rs:60-61). So `0` is accepted,
  although the program's own error message asks for a "positive integer"
  (src/main.rs:63), and every child then runs inline. The model takes
  `maxThreads: nat`, and the counter bound is `Ceiling(maxThreads)`, which
  is `max(1, maxThreads)`.

The `Node` datatype (`tree.dfy`) stands for the paths `search` meets
(src/main.rs:99, 117-121): `File` for `is_file`, `Dir` for `is_dir`, `Other`
for everything else.

## Model

| member | source | states |
|---|---|---|
| Matcher.ToAsciiLower | src/main.rs:104-106 | lower-casing keeps the length, turns each of 'A'..'Z' into the letter 32 code points up in 'a'..'z', and leaves every other character unchanged |
| Matcher.LowerKeepsOthers | src/main.rs:57-58 | lower-casing leaves non-ASCII characters unchanged and leaves no upper-case ASCII letter behind |
| Matcher.LowerIdempotent | src/main.rs:57-58 | lower-casing an already lower-cased query or line changes nothing |
| Matcher.LowerEqualIff | src/main.rs:104-106 | two strings lower-case to the same string exactly when they are equal up to ASCII case (both directions) |
| Matcher.Contains | src/main.rs:107 | `str::contains`: a line that starts with the query contains it, and a line shorter than the query never does |
| Matcher.Normalize | src/main.rs:57-59 | the text compared keeps its length; it is the text itself when case must match, and holds no upper-case ASCII letter otherwise |
| Matcher.LineMatches | src/main.rs:103-111 | a line that failed to read never matches; a matching line is at least as long as the query |
| Matcher.AnyLineMatches | src/main.rs:102-112 | when the `any` over lines holds, some line matches |
| Matcher.FileMatches | src/main.rs:99-112 | a file that cannot be opened never matches; a matching file has at least one line |
| Matcher.ContainsIff | src/main.rs:107 | `contains` holds exactly when the query occurs at some position of the line; the empty query always occurs |
| Matcher.AnyLineMatchesIff | src/main.rs:102-112 | the `any` over lines holds exactly when some line matches |
| Matcher.AnyLineMatchesAppend | src/main.rs:102-112 | matching over two runs of lines is matching over either run |
| Matcher.ShortCircuit | src/main.rs:102-109 | once a line matches, the lines after it cannot change the outcome |
| Matcher.UnreadableLineIgnored | src/main.rs:103-111 | a line that fails to read can be removed without changing the outcome |
| Matcher.FileMatchesIff | src/main.rs:100-112 | a file matches exactly when it opens and some read line, normalised, contains the normalised query at some position; an unopenable file never matches |
| Matcher.CaseInsensitiveMatch | src/main.rs:56-59 | without case matching, a line matches exactly when some stretch of it equals the raw query up to ASCII case |
| Matcher.CaseInsensitiveInvariance | src/main.rs:104-107 | without case matching, lines and queries that differ only in ASCII case give the same outcome |
| Matcher.HelloExample | src/main.rs:57-58 | "HELLO" matches query "hello" and "hello world" matches query "HELLO" without case matching; "HELLO" does not match "hello" when case must match |
| Matcher.ScanLines | src/main.rs:100-112 | the line loop answers `FileMatches`; it stops right after the first matching line, and reads every line when none matches |
| FileTree.Found | src/main.rs:99-137 | a visit appends no more paths than the tree below the node holds files |
| FileTree.FoundInFirst | src/main.rs:118-136 | the entries of a directory append no more paths than the files below them |
| FileTree.FoundIff | src/main.rs:99-137 | a visit at a given depth appends a path exactly when it belongs to a matching file at a level the policy visits |
| FileTree.FoundInFirstIff | src/main.rs:118-136 | the entries of a directory, each visited at depth + 1, append exactly the collectable paths below them |
| FileTree.RecursiveCollectsAllMatches | src/main.rs:117-134 | in recursive mode the search appends exactly the paths of matching files at any depth below the root |
| FileTree.FlatStopsAtDepthOne | src/main.rs:117 | without recursion the search appends exactly the paths of matching files at most one level below the root |
| FileTree.FoundWithinAllFiles | src/main.rs:113-114 | a walk appends each path no more often than the tree holds a file with that path |
| FileTree.EachMatchAppendedOnce | src/main.rs:113-134 | when the tree's file paths are distinct, each collectable matching file is appended exactly once and the results have no repeats |
| Walk.Walker.constructor | src/main.rs:52-53 | the counter starts at 1 and the results start empty |
| Walk.Walker.Admit | src/main.rs:125-126 | a child gets its own task only while the counter is below the ceiling, and then the counter goes up by one; the counter stays within `max(1, max_threads)` |
| Walk.Walker.Release | src/main.rs:129 | a finished spawned child lowers the counter by one |
| Walk.Walker.Search | src/main.rs:88-139 | the visit appends exactly `Found` for its node and depth; the counter is back at its start value when it returns and never exceeds the ceiling |
| Walk.SearchTree | src/main.rs:52-80 | a whole search collects `Found` from the root at depth 0 with the normalised query; the counter reads 1 when the wait loop checks it; the counter never exceeded `max(1, max_threads)` |
| Walk.ResultsIndependentOfCeiling | src/main.rs:125-134 | two searches that differ only in `max_threads` collect the same paths |
| Scenario.RecursiveIgnoringCase | src/main.rs:99-137 | on the example tree, a case-insensitive recursive search for "hello" finds `root/a.txt` and `root/sub/b.txt` |
| Scenario.FlatIgnoringCase | src/main.rs:117 | on the example tree, the same search without recursion finds only `root/a.txt` |
| Scenario.RecursiveMatchingCase | src/main.rs:104-107 | on the example tree, a case-sensitive search for "hello" finds only `root/a.txt` |

## Left out

- Argument parsing, the default ceiling from the CPU count, `~` expansion and
  the check that the root is a directory (src/main.rs:17-51, 60-65). They are
  library calls and I/O glue. The model starts from the parsed settings.
- Threads, the `mpsc` completion channel, the mutexes and the blocking
  receive in the wait loop (src/main.rs:66, 78-80, 127-131). They are
  concurrency. Spawned children are visited in place, one after another.
  `SearchTree` returns the counter value that the wait loop's condition reads.
- Walk.Walker.Admit: the counter bound is proved for the sequential model
  only. In the code the check and the increment lock separately
  (src/main.rs:125-126), so under real concurrency the counter can overshoot
  the ceiling. A sequential model cannot show that race.
- Matcher.AnyLineMatches: a `None` line stands for one failed read that the
  reader skips. A read that keeps failing makes `BufRead::lines()` yield an
  error forever, so the `any` at src/main.rs:102-112 never returns and the
  wait at src/main.rs:78 never ends. A path that turns into a directory
  between `is_file` (src/main.rs:99) and `File::open` (src/main.rs:100) is
  one way to get there. A finite line sequence cannot express this, so the
  model does not cover it.
- Opening files, buffered line reading and directory listing
  (src/main.rs:100-101, 118). The `Node` tree and the line sequences stand
  for them. A path is carried in its node, so `entry.path()` is not modelled.
- The process-wide `static mut QUERY` (src/main.rs:55-58). The normalised
  query is an immutable field of the walker's `Options` instead.
- The panic on a path that is not valid UTF-8 (`to_str().unwrap()`,
  src/main.rs:114) and the printing of results (src/main.rs:81-85).
- Result order. It depends on thread scheduling. `Found` gives the order of
  a sequential walk, and the lemmas speak of membership and multiplicity.
- Symbolic links that form cycles. A `Node` tree is finite and acyclic, so a
  recursive search that never ends cannot be represented.
- Integer widths. `depth + 1` and the counter are `usize` in the code. They
  are unbounded here, because neither can get near the limit: depth is
  bounded by the tree and the counter by the ceiling.
