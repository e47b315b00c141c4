# wg-grammar tester: ambiguity check and directory tally

This project models the core of the `tester` binary of the Rust grammar
working group's `wg-grammar` repository. The binary parses Rust source files
with a generated GLL parser and reports how each one fared. The model covers
three things:

- **`ambiguity_check`**: a breadth-first walk over the shared packed parse
  forest (SPPF) that the parser builds. The walk starts at the root handle and
  keeps a FIFO queue and a `seen` set. It follows alias children, present
  optional children, the unique alternative of a choice and both halves of a
  unique split. It stops with `MoreThanOne` at the first node with several
  alternatives or several splits.
- **The `dir` command's loop**: every file's parse result falls into exactly
  one of four categories (unambiguous `~`, ambiguous `!`, partial `.`, no
  parse `X`). The loop increments that category's counter and the total. In
  compact mode it writes the status character, with a line break before every
  80th one.
- **`parse_file_with`**: a tokenizer error is reported as `NoParse`.

The modules are:

- `Wrappers` holds `Option` and `Result`.
- `Forest` holds the forest as a map from node to shape, and the
  specification of "unambiguous". That is reachability along explicit paths
  of followed children, plus "no reachable node is locally ambiguous".
- `Ambiguity` holds the checker, written as a method with a `while` loop over
  a `seq` queue and a `set` of seen nodes. A ghost `order` records every
  enqueued node. The loop invariant `Walk` says:
  - no node is enqueued twice;
  - `seen` is exactly the set of enqueued nodes;
  - every enqueued node is reachable;
  - every dequeued node has all its children in `seen`.
- `Harness` holds the `dir` loop. It keeps five counters and an output
  string. Its loop invariant ties them to the tally, and to the compact
  stream of the files processed so far.

The engine's behaviour is given as data. A `Choice` node carries the list of
alternatives that `one_choice` inspects, and a `Split` node carries the list
of (left, right) pairings that `one_split` inspects. A singleton list is the
unique answer, and a longer list is `MoreThanOne`. Two engine guarantees are
stated as `WellFormed` and are required of the callers:

- neither list is empty;
- every child is a node of the forest.

The compact stream follows the code exactly. The break is printed when the
running total reaches a multiple of 80, before that file's character. So the
first line holds 79 status characters and each later full line holds 80
(the last line holds what is left over); a
description of "80 characters per line" is true only from the second line
on. The model follows the code.

## Model

| member | source | states |
|---|---|---|
| Ambiguity.One | src/bin/tester.rs:102-105 | `one_choice` and `one_split` answer with a candidate (an alternative, or a (left, right) pair) exactly when there is a single one, and then it is that candidate; otherwise they report `MoreThanOne` |
| Ambiguity.Unseen | src/bin/tester.rs:87-93 | the nodes the closure pushes are exactly the children not yet in `seen`, each pushed once even when it repeats |
| Ambiguity.AddChildren | src/bin/tester.rs:87-93 | inserting the children into `seen` adds all of them to `seen`, and appends to the queue exactly the unseen ones, in order |
| Ambiguity.Visit | src/bin/tester.rs:94-107 | dispatching on the shape fails exactly when the node is locally ambiguous; otherwise it pushes the unseen children the shape yields (none for `Opaque`, the alias child, the present optional child, the unique alternative, both halves of the unique split) and marks them seen |
| Ambiguity.WalkStart | src/bin/tester.rs:82-84 | the walk starts with the root as the only node queued and seen, and nothing dequeued: the walk invariant holds from the start |
| Ambiguity.Step | src/bin/tester.rs:86-107 | one turn of the `while let` loop keeps the walk invariant; on `MoreThanOne` the node just dequeued is the first ambiguous one and the forest is ambiguous; otherwise the unseen part of the forest or the queue shrinks |
| Ambiguity.Enqueue | src/bin/tester.rs:86-107 | dequeuing an unambiguous node and pushing its unseen children keeps no node enqueued twice, `seen` equal to the enqueued nodes, all of them reachable, and every dequeued node's children in `seen` |
| Ambiguity.EnqueueShrinks | src/bin/tester.rs:86-108 | the termination measure: either the reachable nodes not yet seen decrease, or nothing new was seen and the queue shrank |
| Ambiguity.AmbiguityFound | src/bin/tester.rs:102-105 | the early return is justified: the node dequeued is reachable and locally ambiguous, so the forest is ambiguous, and every node dequeued before it was not |
| Ambiguity.WalkFinished | src/bin/tester.rs:86-110 | when the queue runs empty, the dequeued nodes start at the root, never repeat, are exactly the reachable ones, none of them ambiguous, so `Ok(())` is right; there are no more of them than distinct reachable nodes |
| Ambiguity.VisitedBound | src/bin/tester.rs:86-108 | the walk dequeues at most as many nodes as there are distinct reachable nodes, however many derivations share them |
| Ambiguity.AmbiguityCheck | src/bin/tester.rs:79-111 | returns `Ok(())` exactly when no node reachable from the root is locally ambiguous; the dequeued nodes start at the root, never repeat and are all reachable; on `Ok` they are exactly the reachable nodes; on `Err` the last is the first ambiguous node met; there are at most as many as distinct reachable nodes |
| Forest.Children | src/bin/tester.rs:94-107 | the nodes the `match` goes on to: none for an opaque or a locally ambiguous node, the unique alternative of a choice, both halves of the unique split; never more than two |
| Forest.UnambiguousUnfolds | src/bin/tester.rs:94-107 | the forest is unambiguous exactly when the root is not locally ambiguous and every child the root's shape yields is the root of an unambiguous forest |
| Forest.ClosedContainsReachable | src/bin/tester.rs:86-108 | a `seen` set that holds the root and all children of its members holds every reachable node |
| Harness.ParseFileWith | src/bin/tester.rs:60-67 | a token stream's parse result is passed on unchanged, and the result is `NoParse` exactly when tokenizing failed or the parse found nothing |
| Harness.TokenizeFailureIsNoParse | src/bin/tester.rs:62-65 | a file that fails to tokenize is classified exactly like one that does not parse: `X`, never a partial parse |
| Harness.Categorize | src/bin/tester.rs:156-166 | each result falls into exactly one category: unambiguous or ambiguous for a full parse, according to the ambiguity check, partial for `TooShort`, failed for `NoParse` |
| Harness.StatusChar | src/bin/tester.rs:156-166 | the status character chosen for a category reads back as that category and is never a line break, so the characters `~ ! . X` are distinct |
| Harness.Counter | src/bin/tester.rs:156-166 | the counter a category selects through `&mut` is one of the four per-category counters, so it never exceeds their sum |
| Harness.Bump | src/bin/tester.rs:167-168 | the selected counter and the total grow by one and every other counter is unchanged |
| Harness.Count | src/bin/tester.rs:156-168 | the counter update of one file is the `Bump` of its category |
| Harness.Tally | src/bin/tester.rs:138-168 | after a run the total is the number of files and the four counters sum to it |
| Harness.TallyCounts | src/bin/tester.rs:156-168 | each counter equals the number of files of its category |
| Harness.StatusesAgreeWithCounters | src/bin/tester.rs:156-178 | each status character occurs in the status sequence exactly as many times as its counter says |
| Harness.Compact | src/bin/tester.rs:174-178 | the compact stream holds one character per status and one line break per 80 statuses |
| Harness.CompactOccurrences | src/bin/tester.rs:174-178 | the printed stream holds every status character as often as the status sequence does: the line breaks add no status |
| Harness.CompactPositions | src/bin/tester.rs:174-178 | the stream holds one character per file plus one break per 80 files, and the status of file `i` (from 0) is at position `i + (i + 1) / 80` |
| Harness.CompactBreaks | src/bin/tester.rs:174-178 | for statuses that are not line breaks, the breaks in the stream are exactly at positions 79, 160, 241, …, so the first line holds 79 statuses and every later full line 80 |
| Harness.CheckFile | src/bin/tester.rs:154-166 | parsing a file and checking a full parse for ambiguity yields the category its parse calls for |
| Harness.Emit | src/bin/tester.rs:174-179 | in compact mode a file adds its status character, preceded by a break when the running total is a multiple of 80 |
| Harness.DirStep | src/bin/tester.rs:152-180 | one file extends the categories by one, bumps the tally by its category and extends the compact stream by its character, after a break when the new total is a multiple of 80 |
| Harness.Dir | src/bin/tester.rs:136-182 | the counters after the loop are the tally of the files' categories; in compact mode the output is the compact stream of their statuses, and in verbose mode nothing is written to stdout |

## Left out

- `build.rs` is not part of this model. It generates the parser from the `.g` grammar fragments with file I/O and calls into the `gll` library.
- The `gll` engine itself is left out, as foreign code: the parser, SPPF construction, `unpack_alias`, `unpack_opt`, and the internals of `one_choice` and `one_split`. Only their observable answers are modelled, as the data a `Shape` carries.
- The engine's behaviour on a choice or split with no candidates is not visible in the code. `WellFormed` excludes it as a precondition.
- `dump_graphviz` and the `file` subcommand (`src/bin/tester.rs:115-135`) are left out. They only write debug output.
- Command-line parsing with `structopt` is left out, as library plumbing. So is the `WalkDir` traversal with its `.rs` extension filter. `Dir` takes the already-collected files, in walk order, as a sequence.
- The panics of `read_to_string(...).unwrap()` and of the directory walk are left out.
- Flushing stdout is left out.
- The `{:#?}` debug dumps to stderr in verbose mode are left out. Verbose mode is modelled as writing nothing to stdout.
- The closing summary printed after the loop (`src/bin/tester.rs:185-190`) is left out. That is a line break, then the five counters in fixed sentences; `Dir` returns those counters, but their text formatting is not modelled.
- Machine integer widths are not modelled. The counters are `i32` (Rust's default integer type, since nothing in their uses fixes their type) and are modelled as unbounded naturals; a run of more than `i32::MAX` files, where the total would overflow and move the line breaks, is out of scope.
