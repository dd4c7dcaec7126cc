# filterfrom (ban-only filter) in Dafny

`filterfrom` is a command-line stream filter. It takes one argument, the path
of a banlist file. It reads that file and trims every line of it. The trimmed
lines form the banset; duplicates collapse. Then it reads standard input line
by line. For each line it writes the trimmed line to standard output, unless
that trimmed line is in the banset.

The model has four modules, one per piece of the program:

- `Text` (text.dfy) models Rust's `str::trim` exactly. The whitespace
  predicate is `char::is_whitespace`, the full Unicode White_Space table. The
  module proves that `Trim` returns the unique trimmed middle of a split into
  whitespace, middle and whitespace. It also proves that `Trim` is idempotent
  and ignores extra surrounding whitespace, such as a line terminator.
- `Banlist` (banlist.dfy) builds the banset. The lines are inserted one after
  another, as the `collect` into a `HashSet` does. The module proves the result
  is the set of trimmed lines, and that order and repetition do not matter.
- `Stream` (stream.dfy) holds the stream loop `FilterStream`, a `while` loop
  that appends to the output. Its specification is the pure function
  `Emitted`: the trimmed input lines, keeping those not in the banset. Lemmas
  about `Emitted` cover the order, soundness, completeness and idempotence of
  the output.
- `Cli` (cli.dfy) is `main`: the missing-argument error, the file-read error,
  and the run of the loop over all of standard input.

The environment is passed in as values:

- `args` is the argument vector, with the program name first.
- `files` maps every readable path to the lines of its contents.
- `stdin` is the finite sequence of lines read.
- The result is the sequence of lines written plus an exit status.

## Model

| member | source | states |
|---|---|---|
| `Text.TrimStart` | src/main.rs:10 | what is left after dropping leading whitespace is empty or starts with a non-whitespace character |
| `Text.TrimEnd` | src/main.rs:10 | what is left after dropping trailing whitespace is empty or ends with a non-whitespace character |
| `Text.Trim` | src/main.rs:10 | the trimmed string has no whitespace at either end |
| `Text.TrimStartSuffix` | src/main.rs:10 | trim_start removes only a whitespace prefix: its result is a suffix of the input |
| `Text.TrimEndPrefix` | src/main.rs:10 | trim_end removes only a whitespace suffix: its result is a prefix of the input |
| `Text.TrimInfix` | src/main.rs:10 | trim's result is an infix of the input, surrounded in it by whitespace only |
| `Text.TrimUnique` | src/main.rs:10 | for any split of a string into whitespace, a trimmed middle and whitespace, trim returns that middle |
| `Text.TrimOfTrimmed` | src/main.rs:10 | a string with no whitespace at either end is its own trim |
| `Text.TrimIdempotent` | src/main.rs:14-15 | trimming twice gives the same as trimming once |
| `Text.TrimIgnoresPadding` | src/main.rs:13-15 | extra whitespace on either side, such as a line terminator, does not change the trimmed line |
| `Banlist.LoadBanSet` | src/main.rs:8-11 | the banset is exactly the set of the trimmed banlist lines |
| `Banlist.BanSetTrimmed` | src/main.rs:10-11 | every banset entry is trimmed, and trimming it again leaves it unchanged |
| `Banlist.BanSetOrderInsensitive` | src/main.rs:9-11 | two banlists with the same lines, in any order and with any repeats, give the same banset |
| `Stream.UnbannedSelects` | src/main.rs:14-16 | the kept lines are exactly the unbanned ones, each once, at increasing positions, in input order |
| `Stream.EmittedSubsequence` | src/main.rs:13-19 | the output is the trimmed input with the banned lines removed: the trimmed lines at an increasing list of input positions, which holds exactly the lines whose trim is not banned |
| `Stream.EmittedSound` | src/main.rs:14-15 | no output line is in the banset; every output line is trimmed and is the trim of some input line |
| `Stream.EmittedComplete` | src/main.rs:14-16 | an input line's trimmed form is in the output if and only if it is not in the banset |
| `Stream.UnbannedAppend` | src/main.rs:13-19 | filtering two stretches of lines one after the other gives the two outputs one after the other |
| `Stream.EmittedAppend` | src/main.rs:13-19 | the output for input read in two parts is the first part's output followed by the second's, so each line's output does not depend on later lines |
| `Stream.UnbannedKeepsClean` | src/main.rs:14-15 | lines none of which is banned all pass through unchanged |
| `Stream.EmittedIdempotent` | src/main.rs:14-15 | filtering the output again with the same banset reproduces it unchanged |
| `Stream.FilterStream` | src/main.rs:13-19 | the loop writes exactly `Emitted(banset, stdin)`: the trimmed unbanned lines, in input order |
| `Cli.Run` | src/main.rs:5-20 | no argument after the program name gives MissingBanlist. An unreadable banlist gives ReadFailed with its path. Both stop with nothing written. Otherwise the run succeeds and writes the filter of all stdin by the banlist's banset |
| `Cli.BanOnlyFilter` | src/main.rs:8-16 | an input line's trim is written if and only if no banlist line trims to the same string |
| `Cli.HelloworldExample` | src/main.rs:8-16 | with banlist line "Helloworld\r", the input "not just Helloworld\n" is written as "not just Helloworld", and "  Helloworld\n" is dropped |

## Left out

- Command-line access through `paw::Args` and the `oops` helper
  (src/main.rs:4-6). The argument vector is a `seq<string>` parameter. The
  error is the value `MissingBanlist`; the message text "Missing banlist" is
  not modelled. Arguments after the first are ignored, as `nth(1)` ignores
  them.
- File reading with `std::fs::read_to_string` (src/main.rs:8) is I/O. A file
  is readable exactly when its path is in the `files` map. Every kind of read
  failure collapses into `ReadFailed(path)`: missing file, missing
  permission, contents that are not UTF-8.
- Line splitting by `str::lines` is not modelled. Files and standard input
  are given already split into lines. A `\r` or `\n` left on a line is
  whitespace, so `Trim` removes it (`Text.TrimIgnoresPadding`).
- Reading standard input through `stdinix` (src/main.rs:13) is a foreign I/O
  loop. Standard input is a finite sequence of lines. A read error on
  standard input is not modelled. The per-line callback always returns
  `Ok(())`, so it has no error path.
- `println!` and the flushing of standard output (src/main.rs:15) are I/O.
  Writing a line appends it to the output sequence. A failed write, which
  makes `println!` panic, is not modelled.
- `HashSet` hashing is not modelled; the banset is a Dafny `set<string>`.
- The more general variant is not part of this model: column selection,
  allow/ban polarity and whole-line matching without trimming. Its code is
  not among the source files modelled here. In the ban-only program the
  membership test always uses the trimmed line (src/main.rs:14). The model
  follows that code.
