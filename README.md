# LightRAG infobot: response cleaning, query shaping and text insertion

The infobot is a small question-answering service built on the LightRAG
retrieval engine with Ollama models. This project models the deterministic
logic of its two Python scripts in Dafny and proves properties of it.

- **`infobot_host.py`** is the HTTP host.
  - `extract_clean_response` takes the engine's answer to a question. It removes every line that starts with a logging prefix (`INFO:`, `WARNING:`, `ERROR:`, `DEBUG:`) and strips the surrounding whitespace.
  - `/modes` serves a fixed table of four retrieval modes.
  - `/query` checks the requested mode against a whitelist, calls the engine and wraps the outcome in a result record (`status`, `response`, `error`, `mode`).
- **`lightrag_ollama_demo.py`** loads the knowledge base.
  - `insert_text` reads the input file and strips it.
  - It refuses a missing file, an unreadable file or a blank file.
  - It cuts the text into slices of 1000 characters.
  - It hands each slice to the engine's `insert`. A slice whose insertion raises is skipped, and the rest are still inserted.

The Dafny modules follow the scripts:

- `PyText` (`pytext.dfy`) holds the Python `str` operations the scripts rely on:
  - `isspace`, with the full Python 3 whitespace set;
  - `strip`, `lstrip`, `rstrip`;
  - `split` on one character;
  - `join`;
  - `startswith` with a tuple of prefixes.
- `InfobotHost` (`infobot_host.dfy`) holds the response cleaning, the mode table and the query result. It consists of pure functions and lemmas.
- `OllamaDemo` (`ollama_demo.dfy`) holds two parts:
  - the chunking: a function with lemmas tying it to the list comprehension over `range(0, len(text), 1000)`;
  - `insert_text`: a method with a loop over the chunks. The engine is a class `Rag` that records each `insert` call and whether it returned.

The engine enters the model as inputs:
- `rag.query` is a function parameter `engine(question, mode)` that either returns a Python value or raises with a message.
- `rag.insert` is `Rag.Insert`, whose outcome the driver cannot predict.
- The input file is a value: missing, unreadable (opening or reading raises) or present with its text.

## Model

| member | source | states |
|---|---|---|
| PyText.IsSpace | LightRAG/examples/infobot_host.py:55 | `c.isspace()`: membership in the exact Python 3 whitespace set that `strip()` with no argument removes. IsSpaceRanges gives the same set as code-point ranges. |
| PyText.IsSpaceRanges | LightRAG/examples/lightrag_ollama_demo.py:48 | a character is whitespace if and only if it lies in one of the `str.isspace` ranges: tab to carriage return, U+001C to space, U+0085, U+00A0, U+1680, U+2000 to U+200A, U+2028, U+2029, U+202F, U+205F, U+3000. |
| PyText.TrimStart | LightRAG/examples/infobot_host.py:55 | the result is a suffix of the input. Everything removed is whitespace, and the result does not start with whitespace (the left half of `strip()`). |
| PyText.TrimEnd | LightRAG/examples/infobot_host.py:55 | the result is a prefix of the input. Everything removed is whitespace, and the result does not end with whitespace (the right half of `strip()`). |
| PyText.Strip | LightRAG/examples/infobot_host.py:55 | the result is no longer than the input and has no leading or trailing whitespace. |
| PyText.StripIsSlice | LightRAG/examples/lightrag_ollama_demo.py:48 | `strip()` is a slice `s[i..j]` of its input. Everything before `i` and from `j` on is whitespace. |
| PyText.PrefixOfSuffix | LightRAG/examples/infobot_host.py:55 | a prefix of a suffix of a string is one of its slices, and what follows the prefix inside the suffix is the tail of the whole string. |
| PyText.StripTrimmed | LightRAG/examples/infobot_host.py:55 | a string with no surrounding whitespace is returned by `strip()` unchanged. |
| PyText.StripLeadingSpace | LightRAG/examples/infobot_host.py:55 | a leading whitespace character does not change the result of `strip()`. |
| PyText.StripEmptyIffAllSpace | LightRAG/examples/lightrag_ollama_demo.py:48-49 | the stripped text is empty if and only if every character is whitespace. This is the test `if not text_data`. |
| PyText.StartsWithAny | LightRAG/examples/infobot_host.py:54 | `s.startswith(prefixes)` for a tuple, tested prefix by prefix. StartsWithAnyExists pins it down as "some prefix matches". |
| PyText.StartsWithAnyExists | LightRAG/examples/infobot_host.py:54 | `startswith` with a tuple holds if and only if some prefix in the tuple is a prefix of the string. |
| PyText.Split | LightRAG/examples/infobot_host.py:53 | `split('\n')` yields at least one piece, and no piece contains the separator. |
| PyText.Join | LightRAG/examples/infobot_host.py:55 | `sep.join(parts)`: an empty list joins to `""`, and the first part is a prefix of the result. JoinSplit, SplitJoin and JoinFour pin down the rest. |
| PyText.JoinSplit | LightRAG/examples/infobot_host.py:53-55 | joining the pieces of a split with the separator gives back the input. |
| PyText.SplitJoin | LightRAG/examples/infobot_host.py:53-55 | splitting a join of separator-free pieces gives back the pieces, so split and join are inverse. |
| PyText.SplitNoSep | LightRAG/examples/infobot_host.py:53 | a string without the separator splits into itself alone. |
| PyText.SplitPrefix | LightRAG/examples/infobot_host.py:53 | a separator-free prefix becomes part of the first piece of what follows it. |
| InfobotHost.IsLogLine | LightRAG/examples/infobot_host.py:54 | the filter of the comprehension. IsLogLineCases states it as the four prefixes `INFO:`, `WARNING:`, `ERROR:`, `DEBUG:`. |
| InfobotHost.Without | LightRAG/examples/infobot_host.py:53-54 | the comprehension keeps no more lines than it is given, and it keeps no line the filter rejects. |
| InfobotHost.DropLogLines | LightRAG/examples/infobot_host.py:53-54 | no kept line starts with a log prefix. |
| InfobotHost.WithoutExact | LightRAG/examples/infobot_host.py:53-54 | the kept lines are exactly the input lines the filter does not reject, in their original order. A strictly increasing list of positions picks them, and a position is listed if and only if its line is kept. |
| InfobotHost.WithoutNone | LightRAG/examples/infobot_host.py:53-54 | when no line is rejected, every line is kept. |
| InfobotHost.IsLogLineCases | LightRAG/examples/infobot_host.py:54 | a line is a log line if and only if it starts with `INFO:`, `WARNING:`, `ERROR:` or `DEBUG:`. |
| InfobotHost.CleanResponse | LightRAG/examples/infobot_host.py:50-56 | a non-string value (including `None`) is returned unchanged. A string yields a string with no leading or trailing whitespace. |
| InfobotHost.CleanResponseKeptLines | LightRAG/examples/infobot_host.py:53-55 | before the final strip, a cleaned string is the `'\n'`-join of exactly the non-log lines of the input, in their order. |
| InfobotHost.CleanResponseNoLogLines | LightRAG/examples/infobot_host.py:53-55 | when no line starts with a log prefix, cleaning is just `strip()` of the input. |
| InfobotHost.CleanResponseOneLine | LightRAG/examples/infobot_host.py:53-55 | a one-line response cleans to `""` if it is a log line, and to its stripped self otherwise. |
| InfobotHost.IndentedNotLogLine | LightRAG/examples/infobot_host.py:54 | a line that starts with a space is never a log line. |
| InfobotHost.CleanResponseNotIdempotent | LightRAG/examples/infobot_host.py:53-55 | for a one-line log line `t`, a first cleaning turns `" " + t` into `t`, and a second cleaning turns it into `""`. Cleaning twice can therefore remove more than cleaning once. |
| InfobotHost.AvailableModes | LightRAG/examples/infobot_host.py:58-65 | the ids served by `/modes` are exactly the whitelisted modes, in the same order. |
| InfobotHost.InvalidModeMessage | LightRAG/examples/infobot_host.py:71-76 | the error text is `Invalid mode. Must be one of: naive, local, global, hybrid`, built from the whitelist. |
| InfobotHost.JoinFour | LightRAG/examples/infobot_host.py:76 | `', '.join` of four items puts the separator between consecutive items. |
| InfobotHost.QueryRag | LightRAG/examples/infobot_host.py:67-97 | on every path: the record's mode is the requested mode; the `status` field reads `"error"` if and only if an error text is present; an error has response `None`; success holds if and only if the mode is whitelisted and the query returned. |
| InfobotHost.QueryRagInvalidMode | LightRAG/examples/infobot_host.py:71-78 | a mode outside the whitelist yields the fixed error record with response `None`. The engine is not consulted: any two engines give the same record. |
| InfobotHost.QueryRagReturned | LightRAG/examples/infobot_host.py:81-89 | a whitelisted mode whose query returns yields success, no error, and the cleaned answer. |
| InfobotHost.QueryRagRaised | LightRAG/examples/infobot_host.py:90-97 | a query that raises yields an error record with response `None` and the exception's text as error. |
| InfobotHost.ServedModesAccepted | LightRAG/examples/infobot_host.py:60-72 | every mode served by `/modes` passes the whitelist, so its outcome depends only on the engine. The default mode `naive` is whitelisted. |
| OllamaDemo.NumChunks | LightRAG/examples/lightrag_ollama_demo.py:57-59 | `len(range(0, n, 1000))` is zero exactly for `n = 0`, and otherwise the ceiling of `n / 1000`: `1000 * (count - 1) < n <= 1000 * count`. |
| OllamaDemo.SliceAt | LightRAG/examples/lightrag_ollama_demo.py:57 | `text[i:i + 1000]` is a prefix of `text[i:]` of at most 1000 characters, and is shorter only when it reaches the end of the text. |
| OllamaDemo.Chunks | LightRAG/examples/lightrag_ollama_demo.py:56-57 | there are no chunks exactly when the text is empty. Every chunk has between 1 and 1000 characters, and every chunk but the last has exactly 1000. |
| OllamaDemo.ChunksAreRangeSlices | LightRAG/examples/lightrag_ollama_demo.py:57-59 | the chunks are the list comprehension over `range(0, len(text), 1000)`: there are `len(range(...))` of them, and chunk `k` is the slice starting at offset `1000 * k`. |
| OllamaDemo.NumChunksStep | LightRAG/examples/lightrag_ollama_demo.py:57 | when the text is longer than one chunk, removing the first 1000 characters removes exactly one element from `range(0, len, 1000)`. |
| OllamaDemo.SliceOfRest | LightRAG/examples/lightrag_ollama_demo.py:57 | a slice of the text after the first chunk is the slice of the whole text at an offset 1000 larger. |
| OllamaDemo.ChunkCount | LightRAG/examples/lightrag_ollama_demo.py:57-59 | for non-empty text, the number of chunks is `ceil(len / 1000)`. |
| OllamaDemo.ChunksConcat | LightRAG/examples/lightrag_ollama_demo.py:48-57 | `''.join` of the chunks in order reproduces the stripped text exactly. |
| OllamaDemo.Stored | LightRAG/examples/lightrag_ollama_demo.py:62-69 | the chunks whose insertion returned are no more than the chunks attempted. |
| OllamaDemo.StoredAllSucceeded | LightRAG/examples/lightrag_ollama_demo.py:62-65 | when every insert returns, every attempted chunk is stored, in order. |
| OllamaDemo.StoredAppend | LightRAG/examples/lightrag_ollama_demo.py:63-69 | one more attempt adds its chunk to the stored chunks if it returned, and nothing if it raised. The earlier attempts are unaffected. |
| OllamaDemo.Rag.constructor | LightRAG/examples/lightrag_ollama_demo.py:24-38 | a fresh engine has had no insert calls. |
| OllamaDemo.Rag.Insert | LightRAG/examples/lightrag_ollama_demo.py:64-67 | each call is recorded once, with the chunk passed and whether it returned or raised. |
| OllamaDemo.InsertSucceeds | LightRAG/examples/lightrag_ollama_demo.py:43-51 | the return value of `insert_text`: the file was read and its stripped text is not empty. |
| OllamaDemo.InsertSucceedsIff | LightRAG/examples/lightrag_ollama_demo.py:43-51 | the insertion goes ahead if and only if the file was read and holds at least one character other than whitespace. |
| OllamaDemo.StoredSuffixAllSucceeded | LightRAG/examples/lightrag_ollama_demo.py:62-65 | when every call from some position on returned, all the chunks of those calls were stored, in order. |
| OllamaDemo.InsertEach | LightRAG/examples/lightrag_ollama_demo.py:62-69 | the loop makes exactly one `insert` call per chunk, in index order, whether each call returns or raises. It leaves the earlier calls as they were. When every call returned, the stored chunks are all the chunks. |
| OllamaDemo.InsertText | LightRAG/examples/lightrag_ollama_demo.py:41-76 | returns `True` if and only if the file was read and its stripped text is not blank. On `False`, no insert is attempted. On `True`, every chunk of the stripped text is attempted exactly once, in index order, whatever each attempt does, and the earlier insert calls are left as they were. When every insert returned, the stored chunks are exactly the chunks of the stripped text. |

## Left out

- The engine itself is not modelled: the construction of `LightRAG`, the Ollama completion and embedding calls, `EmbeddingFunc`, and what `query` and `insert` compute. `query` is a function parameter that returns or raises. `insert` is a method whose outcome is unknown.
- The FastAPI application, the CORS middleware, the `/health` route, `uvicorn.run` and `nest_asyncio.apply()` are framework glue and are not modelled.
- The creation of the working directory is not modelled.
- `os.path.exists`, `open` and `read` are replaced by the input-file value, which is one of missing, unreadable or present.
- `logging` calls and `time.sleep(0.1)` are dropped. They do not affect any returned value.
- The module-level `print(rag.query(...))` at `lightrag_ollama_demo.py:94-96` is only a call into the engine and is not modelled.
- The browser chat client (`infobot_front.jsx`) is not part of this model.
- InsertText: an exception outside the per-chunk handler is modelled only where the file is opened or read (the `Unreadable` case). The model has no other operation that can raise, so no other such exception can arise. In the script such a later exception would also make it return `False`, possibly after some inserts.
- QueryRag: an exception from `extract_clean_response` is not modelled. On a `str` or any other value it cannot raise, so the only exception path is the engine's.
- CleanResponse: a value that is not a `str` is opaque (`PyOther`) and is passed through untouched, as in the script. Its Python object identity is not modelled.
- CleanResponse: no idempotence property is claimed, since it does not hold (see CleanResponseNotIdempotent).
- The default mode of `/query` (`"naive"`) is a constant shown to be whitelisted. Parsing of HTTP parameters is not modelled.
- PyText.Split: only a one-character separator is modelled. That is the only kind the scripts use.
- Strings are sequences of Unicode code points. The input file's UTF-8 decoding is part of reading it and is not modelled.
