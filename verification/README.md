# minigrep and the web server's request handling, in Dafny

This project models the sequential logic of two small Rust programs:

- **minigrep** (`minigrep/src/lib.rs`): `Config::build` and `Config::new` turn the command
  line into a query, a path and a case-insensitivity flag (read from the `INSENSITIVE`
  environment variable), or fail with one of two messages; `search_case_sensitive` and
  `search_case_insensitive` keep the lines of a text that contain the query; `Config::run`
  picks one of the two searches by the flag and prints the selected lines.
- **the web server's `handle_connection`** (`webserver/src/main.rs`): the first line of the
  request is looked up in a table of exact matches, giving a status line and a page; the
  reply is the status line, a `Content-Length` header carrying the page's length in bytes,
  a blank line and the page.

Modules, one per concept:

| module | file | what it holds |
|---|---|---|
| `Wrappers` | wrappers.dfy | `Option` and `Result` |
| `Seqs` | seqs.dfy | order-preserving `Filter` and its exact characterisation |
| `Text` | text.dfy | `str::contains` (`IndexOf`, `Contains`), ASCII `to_lowercase`, `str::lines` |
| `Minigrep` | minigrep.dfy | `Config`, `Build`, `New`, both searches, `Run` |
| `Decimal` | decimal.dfy | `{}` formatting of a `usize` and reading it back |
| `Utf8` | utf8.dfy | UTF-8 encoding and `String::len` |
| `Webserver` | webserver.dfy | routing, the response format, `HandleConnection` |

Modelling choices:

- The environment variable is a parameter `insensitive: Option<string>`. `None` stands for
  both failures of `env::var`: the variable is unset, or its value is not valid Unicode.
- The file `run` reads is a parameter `Result<string, string>`. The text `run` prints is
  its result.
- The web server's socket input is the request text. The file system is a
  `map<string, string>` from file names to contents.
- `str::lines` (and, for the first line, `BufRead::lines`) splits at each `'\n'`. It drops
  the `'\r'` of a `"\r\n"` ending. It yields no empty last line when the text ends with a
  line ending. This follows the current Rust standard library. There, a bare `'\r'` at the
  very end of the text, with no `'\n'` after it, stays part of the last line. Older
  releases removed that `'\r'` as well.
- `content.len()` is the length in bytes of the UTF-8 form, not the number of characters.
  `Utf8.Len` models it, and `Utf8.Encode` (RFC 3629, section 3) says what those bytes are.
- A panicking `unwrap()` becomes a precondition. `New` needs three arguments.
  `HandleConnection` needs a non-empty request and the routed page to be present.

## Model

| member | source | states |
|---|---|---|
| Minigrep.CaseInsensitiveFromEnv | minigrep/src/lib.rs:28 | the flag is true exactly when the variable is present and equal to `"1"`; an absent value gives false |
| Minigrep.Build | minigrep/src/lib.rs:23-34 | fewer than two arguments fail with "Did not get a query string", exactly two with "Did not get a path string", three or more succeed with the query from the second argument, the path from the third and the flag from the environment |
| Minigrep.BuildIgnoresExtra | minigrep/src/lib.rs:26-33 | arguments after the third do not change the result |
| Minigrep.BuildIgnoresProgramName | minigrep/src/lib.rs:24 | the first argument (the program name) does not change the result |
| Minigrep.New | minigrep/src/lib.rs:10-21 | on three or more arguments, `new` gives the same `Config` as `build`'s success value |
| Minigrep.SearchCaseSensitive | minigrep/src/lib.rs:52-54 | the result is no longer than the text's line list and every returned line contains the query |
| Minigrep.SearchCaseSensitiveExact | minigrep/src/lib.rs:52-54 | the result is the subsequence of the text's lines at increasing positions, and a line's position is selected exactly when the line contains the query |
| Minigrep.SearchCaseInsensitive | minigrep/src/lib.rs:56-59 | the result is no longer than the line list and every returned line, lowercased, contains the lowercased query |
| Minigrep.SearchCaseInsensitiveExact | minigrep/src/lib.rs:56-59 | the result is the subsequence of the original (not lowercased) lines selected exactly when the lowercased line contains the lowercased query |
| Minigrep.SensitiveMatch | minigrep/src/lib.rs:53 | the case-sensitive line filter accepts the query itself, and accepts the empty line exactly when the query is empty |
| Minigrep.InsensitiveMatch | minigrep/src/lib.rs:57-58 | the case-insensitive line filter accepts every line equal to the query up to (modelled) case, and accepts the empty line exactly when the query is empty |
| Minigrep.SensitiveRefinesInsensitive | minigrep/src/lib.rs:52-59 | under the per-character lowercasing of this model, the case-sensitive result is the case-insensitive result with the lines not containing the query verbatim removed (see "Left out" for Unicode's final sigma) |
| Minigrep.SearchEmptyQuery | minigrep/src/lib.rs:52-59 | an empty query is contained in every line, so both searches return all the lines of the text |
| Minigrep.InsensitiveQueryCase | minigrep/src/lib.rs:57-58 | the case-insensitive search depends on the query only through its lowercase form |
| Minigrep.PrintLines | minigrep/src/lib.rs:45-47 | the printing loop writes every selected line followed by a line ending, in order |
| Minigrep.Run | minigrep/src/lib.rs:36-50 | a read error is returned unchanged; otherwise the insensitive search is printed when the flag is set and the sensitive one when it is not |
| Minigrep.RunOutputLines | minigrep/src/lib.rs:39-47 | split into lines again, the printed text gives back exactly the selected lines (when no line of the file ends with a bare `'\r'`) |
| Minigrep.PoemLines | minigrep/src/lib.rs:71-74 | the unit tests' text splits into its three lines |
| Minigrep.SearchCaseSensitiveExample | minigrep/src/lib.rs:68-76 | query `"duct"` selects only `"Safe, Fast, Productive."` |
| Minigrep.SearchCaseInsensitiveExample | minigrep/src/lib.rs:78-86 | query `"dUcT"` selects only `"Safe, Fast, Productive."`, unchanged |
| Text.IndexOf | minigrep/src/lib.rs:53 | the result is the first position where the pattern occurs, or nothing when it occurs nowhere |
| Text.Contains | minigrep/src/lib.rs:53 | `contains` holds exactly when the pattern occurs at some position |
| Text.ToLower | minigrep/src/lib.rs:57-58 | lowercasing keeps the length and maps each character on its own: `A`–`Z` to `a`–`z`, every other character unchanged |
| Text.ContainsLowered | minigrep/src/lib.rs:57-58 | under the per-character lowercasing of this model, a line containing the query still contains it once both are lowercased |
| Text.ToLowerIdempotent | minigrep/src/lib.rs:57 | lowercasing twice is lowercasing once |
| Text.Lines | minigrep/src/lib.rs:53 | no line holds a `'\n'`, and the text has no lines exactly when it is empty |
| Text.JoinLines | minigrep/src/lib.rs:45-47 | the printed text is empty exactly when no line is selected, and otherwise ends with a line ending |
| Text.LinesOfJoinLines | minigrep/src/lib.rs:53 | joining lines with line endings and splitting again gives the lines back (for lines with no `'\n'` and no final `'\r'`) |
| Text.LinesFinalNewline | minigrep/src/lib.rs:53 | a final line ending adds no empty last line |
| Seqs.Filter | minigrep/src/lib.rs:53 | the filtered sequence is no longer than the input and every element kept satisfies the predicate |
| Seqs.KeptIndices | minigrep/src/lib.rs:53 | the kept positions are strictly increasing, in range, and each holds an element satisfying the predicate |
| Seqs.FilterExact | minigrep/src/lib.rs:53 | the filter result is the subsequence at increasing positions holding exactly the elements that satisfy the predicate |
| Seqs.FilterRefine | minigrep/src/lib.rs:53 | filtering by a weaker then a stronger predicate equals filtering by the stronger one |
| Webserver.RouteRequest | webserver/src/main.rs:25-32 | the status is 200 exactly when the line is `"GET / HTTP/1.1"` or `"GET /sleep HTTP/1.1"`, and then the page is `hello.html`; every other line gets `404 NOT FOUND` with `404.html` |
| Webserver.RouteIsExact | webserver/src/main.rs:25-32 | matching is exact: `"GET / HTTP/1.0"` and `"GET / HTTP/1.1 "` are not found |
| Webserver.RequestLine | webserver/src/main.rs:23 | there is a request line exactly when the request is not empty, and it holds no `'\n'` |
| Webserver.RequestLineIsFirstLine | webserver/src/main.rs:21-23 | the request line is the first line without its ending; nothing after it matters |
| Webserver.Response | webserver/src/main.rs:35-36 | the status line is a prefix of the response and the content is its suffix |
| Webserver.ParseResponseRoundTrip | webserver/src/main.rs:35-36 | a client splitting the response at the first blank line and at the first line ending reads back the status line, a `Content-Length` equal to the content's byte length, and the content unchanged |
| Webserver.ResponseBodyBytes | webserver/src/main.rs:35-38 | the bytes written end with the content's bytes, and `Content-Length` counts exactly those bytes |
| Webserver.ParseResponseShape | webserver/src/main.rs:36 | every reply a client accepts is status line, `Content-Length` field, the length in canonical decimal, blank line and body, in that order |
| Webserver.ParseResponseInverse | webserver/src/main.rs:35-36 | a reply that parses to a status line, a content and the content's byte length is exactly the response built from them; with the round trip, parsing fixes the reply |
| Webserver.HandleConnection | webserver/src/main.rs:20-36 | the reply, read back by a client, carries the routed status line, the routed page and that page's byte length (and by `ParseResponseInverse` is exactly the formatted response) |
| Webserver.HandleRequestLine | webserver/src/main.rs:23-36 | a request whose first line is `line` followed by `"\r\n"` is answered with the route of `line`, whatever headers follow |
| Webserver.HandleRequestLineBareNewline | webserver/src/main.rs:23-36 | a request whose first line is `line` followed by a bare `"\n"` is answered with the route of `line` less one final `'\r'`, whatever headers follow |
| Webserver.HandleRootRequest | webserver/src/main.rs:23-26 | a `GET /` HTTP/1.1 request gets status 200 and `hello.html` |
| Decimal.Render | webserver/src/main.rs:36 | the length is written as at least one decimal digit with no leading zero |
| Decimal.ParseRender | webserver/src/main.rs:36 | parsing the written length gives the length back |
| Decimal.RenderParse | webserver/src/main.rs:36 | a canonical digit string is the rendering of the number it parses to |
| Utf8.Len | webserver/src/main.rs:35 | the byte length lies between the character count and four times it |
| Utf8.Encode | webserver/src/main.rs:38 | `as_bytes()` gives between one and four bytes per character |
| Utf8.EncodeLen | webserver/src/main.rs:35-38 | `len()` is the number of bytes `as_bytes()` gives |
| Utf8.DecodeEncodeChar | webserver/src/main.rs:38 | each character's bytes decode back to its code point |
| Utf8.LenAscii | webserver/src/main.rs:35 | the byte length equals the character count exactly when the text is ASCII |

## Left out

- webserver/src/lib.rs (`ThreadPool`, `Worker`): its whole content is concurrency over
  `mpsc` channels, `Arc<Mutex<..>>` and thread spawning and joining. None of those can be
  expressed in this model.
- `main` in webserver/src/main.rs (binding the listener, `take(4)` over incoming
  connections, handing each to the pool) and `stream.write_all`: network I/O.
- `thread::sleep` in the `/sleep` route: a timing side effect. The route's answer is modelled.
- `fs::read_to_string` in both programs: the file contents are parameters.
- minigrep/src/main.rs (`eprintln!`, `process::exit`) and the `println!` calls: output
  plumbing. The printed text is the result of `Run`.
- The second `unwrap()` in webserver/src/main.rs:23: it panics when `read_line` fails, on
  an I/O error such as a reset connection or on invalid UTF-8. The request is given as an
  already read, valid string, so neither failure can be expressed.
- Text.ToLower: lowercases only the ASCII letters A–Z. Rust's `to_lowercase` follows
  Unicode, where some characters lowercase to several characters and capital sigma
  lowercases according to its position in the word; neither is modelled.
- Minigrep.SensitiveRefinesInsensitive: proved for the per-character lowercasing only. Rust's
  `to_lowercase` applies Unicode's final-sigma rule, which depends on context: the query
  `"ΑΣ"` lowercases to `"ας"` but the line `"ΑΣΑ"` lowercases to `"ασα"`, so
  `search_case_sensitive` returns that line and `search_case_insensitive` does not.
- Text.ContainsLowered: proved for the per-character lowercasing only; the same final-sigma
  example (`"ΑΣΑ"` contains `"ΑΣ"`, but `"ασα"` does not contain `"ας"`) breaks it for
  Rust's `to_lowercase`.
- Minigrep.RunOutputLines: stated only for files with no line ending in a bare `'\r'`.
  Such a line, printed and read again, would lose that `'\r'`.
- Webserver.ParseResponseRoundTrip: stated for status lines without `"\r\n"`, which covers
  both status lines the router produces.
