# minigrep, modelled in Dafny

minigrep is a small command-line text search tool. It takes a query and a file
path. It reads the file and prints every line that contains the query, in file
order. When the environment variable `IGNORE_CASE` is set to a valid Unicode value (so
that `env::var("IGNORE_CASE")` succeeds), it compares lowercased text instead.

The model covers the library `src/lib.rs`:

- `Config::build`: turns the argument list into a `Config` or the error
  `"Not enough arguments!"`.
- `search` and `search_case_insensitive`: each is a loop that pushes matching
  lines onto a result vector.
- `run`: picks one of the two searches from `config.ignore_case`.

Files:

- `rust_str.dfy` (module `RustStr`) models the three pieces of Rust's `str` that
  the library relies on:
  - `str::lines` is `Lines`, with its inverse `Unlines` and round-trip lemmas in
    both directions.
  - `str::contains` is `Contains`, proved equal to the predicate `IsSubstring`
    ("the query occurs at some offset").
  - `str::to_lowercase` is `Lower`, applied character by character.
- `minigrep.dfy` (module `Minigrep`) holds the library itself:
  - `Config` and `Build`.
  - The specification `Selected`: the lines a search keeps, in order.
  - `Search` and `SearchCaseInsensitive`: methods whose loops are proved to
    compute `Selected`.
  - `Run`.
  - Lemmas that characterise `Selected`.
- `minigrep_tests.dfy` (module `MinigrepTests`) holds the two unit tests of
  `src/lib.rs`, proved as lemmas.

Modelling choices:

- `str::lines` follows current Rust. The text is cut after each `'\n'`. A piece
  that ended in `'\n'` loses it, and then loses one `'\r'` in front of it if there
  is one. A last piece with no `'\n'` is kept unchanged, so a lone `'\r'` at the
  very end stays. A final `'\n'` does not produce an empty last line. Empty text
  has no lines.
- Lowercasing is ASCII-only: `'A'..'Z'` become `'a'..'z'`, and every other
  character is unchanged. Rust's `to_lowercase` uses full Unicode case mapping,
  so the two can differ on non-ASCII text.
- Strings are sequences of Unicode scalar values (`char`), not UTF-8 bytes. For
  valid UTF-8, substring search over characters and over bytes give the same
  answers.
- The `IGNORE_CASE` lookup becomes the `ignoreCase` parameter of `Build`.
- The file read becomes the `file` parameter of `Run`. It holds either the
  contents of `config.filePath` or the error the read raised.
- Printing becomes `Run`'s result: the sequence of lines, one per `println!`.
- The searches return copies of the lines, not borrowed views into `contents`.
  The lemmas prove each returned line equal to the input line at its position.

`Config::build` checks only the argument count. It accepts an empty query and an
empty path, and so does `Build`.

## Model

| member | source | states |
|---|---|---|
| `RustStr.Lines` | src/lib.rs:49 | Empty text, and only empty text, has no lines. How text is cut (after each `'\n'`, which is dropped along with one `'\r'` before it, with no empty last line) is stated by `LinesOfPrefixed`, `LinesOfCrlf`, `OneCrDropped`, `SingleLine` and the two round trips |
| `RustStr.LinesOfPrefixed` | src/lib.rs:49 | A line followed by `'\n'` is split off whole, and the text after it is split on its own |
| `RustStr.LinesOfCrlf` | src/lib.rs:49 | Any piece with no `'\n'` followed by `"\r\n"` is split off without that one `'\r'`, keeping a `'\r'` at its own end, and the text after it is split on its own |
| `RustStr.OneCrDropped` | src/lib.rs:49 | Only one `'\r'` is dropped before a `'\n'`: `"a\r\r\n"` splits into the single line `"a\r"` |
| `RustStr.LinesUnlinesRoundTrip` | src/lib.rs:49 | Lines with no `'\n'` inside and no `'\r'` at the end, each followed by `'\n'`, split back into exactly the same lines |
| `RustStr.UnlinesLinesRoundTrip` | src/lib.rs:49 | Text that is empty or ends in `'\n'`, with no `'\r'` directly before a `'\n'`, is rebuilt exactly by re-terminating its lines, so splitting loses nothing |
| `RustStr.LinesOfUnlines` | src/lib.rs:49 | Splitting text that starts with whole terminated lines gives those lines first, followed by the lines of the rest |
| `RustStr.SingleLine` | src/lib.rs:49 | Non-empty text with no `'\n'` is one line, kept as it is, with no empty line added |
| `RustStr.Contains` | src/lib.rs:50 | `line.contains(query)` is true exactly when `query` occurs in `line` at some offset |
| `RustStr.EmptyIsSubstring` | src/lib.rs:50 | The empty query occurs in every line, the empty line included |
| `RustStr.LowerChar` | src/lib.rs:63 | `'A'..'Z'` map to `'a'..'z'`, each 32 code points up. Every other character is unchanged |
| `RustStr.Lower` | src/lib.rs:59 | Lowercasing keeps the length and maps every character on its own with `LowerChar` |
| `RustStr.LowerIdempotent` | src/lib.rs:59 | Lowercasing an already lowercased string changes nothing |
| `RustStr.LowerKeepsSubstring` | src/lib.rs:63 | If the query occurs in a line, the lowercased query occurs in the lowercased line |
| `Minigrep.Build` | src/lib.rs:13-25 | The result is an error, and then `"Not enough arguments!"`, exactly when there are fewer than 3 arguments; otherwise the query is `args[1]`, the path `args[2]`, and `ignoreCase` is the injected flag |
| `Minigrep.BuildRoundTrip` | src/lib.rs:15-24 | Any config is rebuilt from a program name, its query and its path, whatever extra arguments follow |
| `Minigrep.Keeps` | src/lib.rs:50 | The match test is exactly `str::contains` (`Contains`) on the line and query as given, or on both lowercased when ignoring case |
| `Minigrep.Selected` | src/lib.rs:47-55 | The lines a search keeps, in order. The result is never longer than the input; `SelectedIsOrderedSelection` and the lemmas after it characterise it fully |
| `Minigrep.Search` | src/lib.rs:45-56 | The loop returns exactly `Selected(Lines(contents), query, false)`: the lines containing `query`, in order |
| `Minigrep.SearchCaseInsensitive` | src/lib.rs:58-69 | The loop, which lowercases the query once and each line before comparing, returns exactly `Selected(Lines(contents), query, true)`, with the lines as they were |
| `Minigrep.Run` | src/lib.rs:29-43 | A failed read is passed on unchanged. Otherwise the output is the case-insensitive result when `ignoreCase` holds and the case-sensitive one when it does not |
| `Minigrep.SelectedIsOrderedSelection` | src/lib.rs:47-55 | The result is the input lines at strictly increasing positions, each unmodified: order is kept, no line is added or repeated, and a position is taken exactly when its line matches |
| `Minigrep.SelectedMembership` | src/lib.rs:49-53 | A line is in the result exactly when it is an input line that matches |
| `Minigrep.SelectedSound` | src/lib.rs:49-53 | Every returned line contains the query. In case-insensitive mode, its lowercase form contains the lowercased query |
| `Minigrep.SelectedComplete` | src/lib.rs:49-53 | Every input line that matches is returned |
| `Minigrep.EmptyQueryKeepsAll` | src/lib.rs:49-50 | The empty query returns all lines unchanged and in order, in either mode |
| `Minigrep.EmptyContentsNoMatch` | src/lib.rs:49 | Empty contents give an empty result for any query and mode |
| `Minigrep.CaseInsensitiveFindsMore` | src/lib.rs:58-64 | For a query already in lowercase, every line the case-sensitive search finds is also found by the case-insensitive one |
| `Minigrep.CaseInsensitiveIgnoresQueryCase` | src/lib.rs:59 | The case-insensitive result is the same for a query and for its lowercase form |
| `MinigrepTests.OneResult` | src/lib.rs:76-85 | Query `"duct"` over the four-line text ending in "Duct tape." yields `["safe, fast, productive."]` |
| `MinigrepTests.CaseInsensitiveResult` | src/lib.rs:88-101 | Query `"rUsT"`, ignoring case, over the text ending in "Trust me." yields `["Rust:", "Trust me."]` |

## Left out

- Reading the file (`fs::read_to_string` and the `?` that passes on its error):
  file I/O. The outcome of the read is an input of `Run`.
- Printing with `println!`: terminal I/O. `Run` returns the lines it would print.
- The `IGNORE_CASE` environment lookup: process-global state. It is the
  `ignoreCase` parameter of `Build`, true exactly when `env::var` succeeds.
  A variable that is set to a value that is not valid Unicode therefore gives a
  case-sensitive search.
- The program's `main`, which calls `Config::build` and `run` and sets the exit
  status. It is not in `src/lib.rs` and is not part of this model.
- Full Unicode lowercasing, including mappings that change a string's length
  and ones that depend on context: this belongs to Rust's standard library.
  `Lower` is ASCII-only, so `SearchCaseInsensitive` matches Rust exactly only
  where both texts are ASCII.
- `LowerKeepsSubstring` holds for the ASCII `Lower` but not for Rust's
  `to_lowercase`, whose final-sigma rule lowercases `"Σ"` to `"σ"` but `"ΑΣ"`
  to `"ας"`. With query `"Σ"`, Rust's case-insensitive search does not return
  the line `"ΑΣ"`, but the model's does.
- Lifetimes, borrowed `&str` views and `Box<dyn Error>`: these carry no meaning
  for the model. Lines are returned as copies, and errors are strings.
