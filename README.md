# Hamlet's SML shell core, modelled in Dafny

Hamlet is a Python 2 front end to the SML/NJ interpreter. This project models three pieces of its sequential logic and proves properties about them:

- **`Trie`** (`prefix_tree.dfy`) models `PrefixTree`, the string set behind identifier completion.
  - A `PrefixTree` class holds a root `Node`. A node is a value with a `map<char, Node>` of children and an `isString` flag. A ghost `Contents` set holds the strings the tree represents.
  - `Add`, `Contains`, `Prefix` and `Remove` walk the tree with loops, as the source does.
  - Where the source updates a node in place, the model records the visited (character, parent) path and rebuilds it upward.
  - `Add` and `Remove` are proved against the functions `Insert` and `Delete`. Lemmas about those functions give set semantics and the "no dead node below the root" invariant.
  - `Node.get_by_prefix` becomes the recursive method `Collect`.
- **`Streams`** (`stream_reader.dfy`) models `SynchronizedStreamReader`, without its thread and lock.
  - The reader is a queue of units plus a `lines` counter. A unit is what `read(1)` returns: one character, or `""` at the end of the stream.
  - `read`, `readlines` and one iteration of `run` (`Step`) are atomic methods. `Run` takes the whole sequence of reads as a parameter.
  - `readlines` is proved against the function `DrainFrom`, which follows its loop. When the counter matches the queue, lemmas show:
    - it returns whole lines;
    - it drains exactly up to the last queued newline;
    - it loses no unit;
    - it returns exactly the lines that were written (`DrainWrittenLines`).
- **`Shell`** (`shell.dfy`) models the text protocol of `SMLShell`: one round of `pre_prompt`, `post_prompt`, `get_matches` and `complete`.
  - What the shell writes to its standard output, to its standard error and to the interpreter's standard input is appended to the logs `outLog`, `errLog` and `smlInput`.
  - The identifier regular expression's `findall` is a function parameter returning pairs of capture groups.
  - readline's line buffer and begin/end indices are parameters of `Complete`.
  - The model keeps one quirk of the source (SMLShell.py lines 116 and 127): both capture groups of every match are added to the trie, so an empty group makes `""` an identifier.

The model follows the code in three details that are easy to read differently:

- The prompt test runs before the newline split in each round. Output followed by a prompt in one chunk therefore takes two rounds: the first forwards the line, the second sees the prompt (`HelloThenPrompt`, `HelloScenario`).
- The forwarded line is written with its newline (`"hello\n"`, not `"hello"`).
- `clear` takes an argument it ignores (PrefixTree.py line 100). The model keeps the parameter.

## Model

| member | source | states |
|---|---|---|
| Trie.LookupMember | smlnj/util/PrefixTree.py:117-123 | a string is stored exactly when following its characters succeeds and ends on a marked node |
| Trie.MemberAppend | smlnj/util/PrefixTree.py:140-146 | strings starting with `p` are stored exactly when the rest is stored below the node reached by `p` |
| Trie.InsertMembers | smlnj/util/PrefixTree.py:84-98 | after `add(s)`, the stored strings are the earlier ones plus `s`, and nothing else |
| Trie.InsertIdempotent | smlnj/util/PrefixTree.py:92-98 | adding a string already stored leaves the tree exactly unchanged |
| Trie.Insert | smlnj/util/PrefixTree.py:90-98 | after `add(s)` the walk for `s` ends on a marked node, so `s` is stored, and the node the walk starts from is not dead |
| Trie.InsertPruned | smlnj/util/PrefixTree.py:92-98 | `add` keeps every non-root node marked or with a child, and the node the walk starts from (the root) is not dead afterwards |
| Trie.Prune | smlnj/util/PrefixTree.py:173-178 | the edge to a child is popped exactly when the child is dead, and otherwise points to the child; the other edges and the flag are untouched |
| Trie.Delete | smlnj/util/PrefixTree.py:168-178 | after the end node is unmarked and dead nodes are popped, `s` is not stored |
| Trie.DeleteMembers | smlnj/util/PrefixTree.py:168-178 | after a successful `remove(s)`, `s` is no longer stored and every other stored string still is |
| Trie.DeletePruned | smlnj/util/PrefixTree.py:173-178 | pruning after `remove` keeps every non-root node marked or with a child |
| Trie.PrunedWithoutMembersIsEmpty | smlnj/util/PrefixTree.py:173-178 | a pruned tree that stores nothing is a bare root, so removing every string restores a new tree's shape |
| Trie.Collect | smlnj/util/PrefixTree.py:45-56 | appends to the list exactly the strings stored below the node (with the prefix put in front), each once, a node's own string before its descendants', and keeps the earlier list as it was |
| Trie.PrefixTree.constructor | smlnj/util/PrefixTree.py:66-74 | the new tree stores exactly the elements of the given collection and satisfies the invariant |
| Trie.PrefixTree.Add | smlnj/util/PrefixTree.py:84-98 | the set gains `s` and nothing else; the tree is `Insert(old root, s)` and keeps the invariant |
| Trie.PrefixTree.Clear | smlnj/util/PrefixTree.py:100-104 | the set is empty and the root is a new node |
| Trie.PrefixTree.Contains | smlnj/util/PrefixTree.py:106-123 | false as soon as an edge is missing, otherwise the end node's flag; equivalently, membership in the set |
| Trie.PrefixTree.Prefix | smlnj/util/PrefixTree.py:131-146 | lists exactly the stored strings starting with `p`, each once, in pre-order; `[]` when the path for `p` is missing |
| Trie.PrefixTree.Remove | smlnj/util/PrefixTree.py:148-178 | raises `KeyError('s')` and changes nothing when `s` is not stored (missing edge or unmarked end node); otherwise the set loses exactly `s`, the tree is `Delete(old root, s)` and the invariant holds |
| Streams.AfterLastNewline | util/SynchronizedStreamReader.py:58-66 | the position just after the last queued newline: a newline precedes it, or it is 0, and no newline follows it |
| Streams.EndOfStream | util/SynchronizedStreamReader.py:76-83 | the position of the first `""` read, before which every read returned a character |
| Streams.JoinLength | util/SynchronizedStreamReader.py:47 | the joined text has one character per queued unit except the end-of-stream `""` |
| Streams.JoinAppend | util/SynchronizedStreamReader.py:47 | joining two queued runs one after the other is joining each and concatenating |
| Streams.JoinUnits | util/SynchronizedStreamReader.py:76-83 | joining the units read one at a time from a text gives the text back |
| Streams.DrainKeepsOrder | util/SynchronizedStreamReader.py:55-68 | the `readlines` loop only appends to the lines completed so far and only takes units off the front of the queue |
| Streams.DrainFromLines | util/SynchronizedStreamReader.py:55-66 | with the counter matching the queue, the drain returns one whole line per counted newline, spells the queue up to its last newline, and leaves the rest queued |
| Streams.ReadLinesOutcome | util/SynchronizedStreamReader.py:55-70 | the drained lines are whole lines, their number is the newline count, and lines plus what is left spell the queue before the call |
| Streams.LinesUnique | util/SynchronizedStreamReader.py:63-66 | a text splits into whole lines in only one way |
| Streams.DrainWrittenLines | util/SynchronizedStreamReader.py:55-70 | when the queue holds the units of whole lines, `readlines` returns exactly those lines in order and leaves nothing queued |
| Streams.SynchronizedStreamReader.constructor | util/SynchronizedStreamReader.py:22-30 | an empty queue with the counter at 0 |
| Streams.SynchronizedStreamReader.Read | util/SynchronizedStreamReader.py:37-47 | returns every queued unit joined in arrival order (`""` for an empty queue), empties the queue and sets the counter to 0 |
| Streams.SynchronizedStreamReader.ReadLines | util/SynchronizedStreamReader.py:49-70 | equals the drain `DrainFrom`; with a consistent counter it returns whole lines, leaves the trailing partial line queued, lowers the counter by the lines returned, and loses no unit; with the counter at 0 it returns `[]` and leaves the queue alone |
| Streams.SynchronizedStreamReader.Step | util/SynchronizedStreamReader.py:78-83 | queues the unit read and counts it exactly when it is a newline, keeping the counter equal to the queued newlines |
| Streams.SynchronizedStreamReader.Run | util/SynchronizedStreamReader.py:72-83 | queues every unit read up to and including the first `""`, counting the newlines among them |
| Shell.LStrip | smlnj/core/SMLShell.py:63 | the longest suffix not starting with whitespace; everything removed is whitespace |
| Shell.IsPrompt | smlnj/core/SMLShell.py:107 | the text starts with `"- "` or with `"= "` |
| Shell.RSplit | smlnj/core/SMLShell.py:111-112 | head, newline and tail spell the text, and the tail holds no newline |
| Shell.RSplitUnique | smlnj/core/SMLShell.py:112 | any split at a newline with no newline after it is the one `rsplit('\n', 1)` makes |
| Shell.Groups | smlnj/core/SMLShell.py:115-116 | both capture groups of every match, and nothing else |
| Shell.StrippedRequest | smlnj/core/SMLShell.py:62-66 | the line without its leading whitespace, and both indices shifted left by exactly the number of characters stripped (even when that makes them negative) |
| Shell.StrippedSelectsSame | smlnj/core/SMLShell.py:62-66 | when both indices lie past the stripped whitespace, the shifted indices select in the stripped line the same text the originals select in the line buffer |
| Shell.HelloThenPrompt | smlnj/core/SMLShell.py:105-113 | `"hello\n- "` is not a prompt; it splits into `"hello"` and `"- "`, and `"- "` is a prompt on the next round |
| Shell.CompletionOfFoo | smlnj/util/PrefixTree.py:45-56 | with identifiers foo, foobar and baz, the only listing for `foo` is foo then foobar |
| Shell.SMLShell.constructor | smlnj/core/SMLShell.py:37-51 | an empty identifier tree, no cached matches, two distinct empty readers, and the class's initial prompt |
| Shell.SMLShell.AddGroups | smlnj/core/SMLShell.py:115-116 | the identifiers gain every capture group of the matches, empty ones included |
| Shell.SMLShell.GetMatches | smlnj/core/SMLShell.py:71-79 | `["  "]` for an empty line at the `"= "` prompt, otherwise exactly the identifiers starting with the text, each once, in pre-order |
| Shell.SMLShell.Complete | smlnj/core/SMLShell.py:56-69 | recomputes the cache from the stripped line only at state 0 and keeps it otherwise; answers the cached match at `state`, or nothing (IndexError) from the cache's length on |
| Shell.SMLShell.ForwardLines | smlnj/core/SMLShell.py:111-116 | writes the text before the last newline plus one newline, learns its identifiers and keeps only the newline-free rest; without a newline it changes nothing |
| Shell.SMLShell.ForwardErrors | smlnj/core/SMLShell.py:118 | writes the interpreter's drained error lines, each a whole line, in order, and leaves what the drain did not take queued |
| Shell.SMLShell.PrePromptStep | smlnj/core/SMLShell.py:97-118 | stops exactly when the accumulated text starts with `"- "` or `"= "`, which becomes the prompt whole; otherwise forwards the complete lines, keeps a newline-free rest, forwards the complete error lines and leaves the trailing partial error line queued in the error reader |
| Shell.SMLShell.PostPrompt | smlnj/core/SMLShell.py:120-127 | sends the line with exactly one newline and adds both groups of every match, so an empty group makes `""` an identifier |
| Shell.HelloScenario | smlnj/core/SMLShell.py:97-113 | with `"hello\n- "` written at once, the first round forwards `"hello\n"` and the second recognises the prompt `"- "` |

## Left out

- Threads and locking in util/SynchronizedStreamReader.py: the `Thread` base class, the `synchronized` decorator and daemon start-up. Each operation is one atomic step.
- `run` updates `lines` outside the lock and before `put`. Under real concurrency `readlines` can then reach `Queue.Empty` in the middle of a line and drop what it has taken. The model has no concurrency, so this interleaving is not represented.
- Streams.SynchronizedStreamReader.ReadLines: the `Queue.Empty` exit is modelled as stopping on an empty queue. With a consistent counter it is never taken.
- The readline library, `raw_input`, and installing and restoring the completer (`__init__`, `__del__`). readline's line buffer and indices are parameters instead.
- Real terminal and pipe writes. Logs stand in for them.
- Subprocess handling (`poll`, `wait`, `stdin.close`), the EOF and KeyboardInterrupt handling of `main`, and `terminate`. These are process plumbing.
- The semantics of the identifier regular expression (`re.VERBOSE | re.LOCALE`). `findall` is an arbitrary function parameter.
- The `debug` decorator, which is the identity with `NDEBUG = True`.
- The `isinstance` checks of PrefixTree (`__value_check`, the `TypeError`-to-`KeyError` conversion and `contains` answering false for non-strings). Strings are typed statically.
- `PrefixTree.__repr__` and `__contains__`, which only wrap `prefix('')` and `contains`.
- smlnj/util/findprograms.py and setup.py: host file-system search and packaging.
- Node identity and aliasing. Nodes are values, and the in-place updates of `add` and `remove` are rebuilds of the visited path.
- Trie.PrefixTree.Prefix: the order of a node's children follows Python's dict iteration order, which is unspecified. The model picks children in an arbitrary order, and its contract fixes only the pre-order.
- Shell.SMLShell.PrePromptStep: models one round of `pre_prompt`'s `while True` loop, which runs until the interpreter prints a prompt and need not terminate. `HelloScenario` chains two rounds.
- Shell.SMLShell.Complete: `state` is a natural number, as readline passes it. The source's negative indexing is not modelled.
