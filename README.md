# ContextSummarizer, modelled in Dafny

This project models `ContextSummarizer.summarize`, the defensive text aggregator of the
python-react-ml repository. The summarizer takes an optional sequence of fragments. If the
sequence is `None` it returns `""`. Otherwise it skips every `None` fragment. It converts
every other fragment to text with `str()` and keeps the first 5000 characters of that text.
It joins the kept pieces with `"\n"` in input order and returns the first 20000 characters
of the join.

Files:

- `wrappers.dfy` (module `Wrappers`): `Option`, which stands for an argument that may be `None`.
- `strings.dfy` (module `Strings`): the two Python string builtins the summarizer uses.
  `Truncate` is prefix slicing (`s[:n]`) and `Join` is `sep.join(pieces)`. Lemmas give
  the length of a join, how a join splits over a concatenation, and where each piece and
  each separator sits in the joined string.
- `context_summarizer.dfy` (module `ContextSummarizer`): the fragment type, the
  specification functions (`Kept`, `Present`, `Summary`), the method `Summarize` that
  follows the source's loop, and the lemmas about its behaviour.

Modelling choices:

- A fragment is `Absent | Text(s) | Other(v)`. Python's `str()` on a value that is not a
  string is the parameter `show: V -> string`. Dafny functions are total and deterministic,
  so converting a fragment can never fail and always gives the same text. `str()` of a
  string is that string.
- Characters are Dafny `char`s, which are Unicode scalar values. On every string the model
  can represent, the limits of 5000 and 20000 count characters exactly as Python slicing
  counts code points. Strings with surrogate code points are the exception (see
  "## Left out").
- `Summarize` has no precondition, so it returns a string for every input. Its result equals
  the function `Summary` of its arguments, so two calls on equal inputs give the same
  summary. Together these are the "returns a string and never crashes" property that
  tests/test_properties.py:15-20 checks on lists of up to 50 texts of up to 5000 characters.
- `Kept` is built from the back, one fragment at a time, just as the loop appends to
  `safe_chunks`. `Present` is an independent front-to-back filter of the non-`None`
  fragments. `KeptMatchesPresent` connects the two.
- The check `if not safe_chunks: return ""` is modelled as written. It gives the same
  result as joining an empty list, because `Join([], sep)` is `""`.

## Model

| member | source | states |
|---|---|---|
| `ContextSummarizer.Summarize` | context_summarizer.py:10-28 | The loop, the empty check, the join and the cap give exactly `Summary(chunks, show)`, for every input; the result has at most 20000 characters |
| `ContextSummarizer.Summary` | context_summarizer.py:12-28 | `None` gives `""`; otherwise the result is a prefix of the newline join of the kept pieces, of length `min(len(join), 20000)`, so it equals the join when the join is at most 20000 characters; never longer than 20000 |
| `ContextSummarizer.Stringify` | context_summarizer.py:20 | `str(chunk)` for a fragment that is not `None`: a `Text` gives its own string, an `Other` goes through `show` |
| `ContextSummarizer.Keep` | context_summarizer.py:17-21 | One loop step: a `None` adds no piece; any other fragment adds exactly one piece, a prefix of its text of length `min(len(text), 5000)` |
| `ContextSummarizer.Kept` | context_summarizer.py:15-21 | At most one piece per fragment, and every piece has at most 5000 characters |
| `ContextSummarizer.Present` | context_summarizer.py:16-18 | The filtered fragments are never `None` and are no more than the input fragments |
| `ContextSummarizer.KeptAppend` | context_summarizer.py:16-21 | The pieces of `a + b` are the pieces of `a` followed by the pieces of `b`: input order is kept |
| `ContextSummarizer.KeptMatchesPresent` | context_summarizer.py:16-21 | The pieces match the non-`None` fragments one to one and in order; piece `j` is exactly `Truncate(text, 5000)` of the `j`-th such fragment, so it is a prefix of that text of length `min(len(text), 5000)` |
| `ContextSummarizer.NothingKeptIffAllAbsent` | context_summarizer.py:16-24 | No piece is kept if and only if every fragment is `None`, which includes the empty sequence |
| `ContextSummarizer.AllAbsentSummarizesEmpty` | context_summarizer.py:16-24 | An empty sequence, or one made only of `None`s, summarizes to `""` |
| `ContextSummarizer.AbsentKeepsNothing` | context_summarizer.py:17-18 | A `None` inserted anywhere adds no piece |
| `ContextSummarizer.AbsentContributesNothing` | context_summarizer.py:16-28 | A `None` inserted anywhere leaves the summary unchanged |
| `ContextSummarizer.EmptyTextIsKept` | context_summarizer.py:17-21 | An empty string is not `None`: it is kept as an empty piece in its position |
| `ContextSummarizer.SummaryOfConcatenation` | context_summarizer.py:26-28 | When both parts keep pieces, the summary of `a + b` is the capped text of the join of `a`'s pieces, a newline, then the join of `b`'s pieces |
| `ContextSummarizer.FewFragmentsAreNotCapped` | context_summarizer.py:21-28 | With at most three non-`None` fragments the 20000 cap never applies, and the summary is the whole join |
| `ContextSummarizer.HelloWorld` | context_summarizer.py:26-28 | `["hello", "world"]` summarizes to `"hello\nworld"` |
| `ContextSummarizer.AbsentAroundText` | context_summarizer.py:16-28 | `[None, "x", None]` summarizes to `"x"` |
| `ContextSummarizer.TwoEmptyTexts` | context_summarizer.py:17-26 | `["", ""]` summarizes to `"\n"` |
| `ContextSummarizer.LongFragmentIsCut` | context_summarizer.py:20-21 | A fragment of 6000 `a`s summarizes to exactly 5000 `a`s |
| `Strings.Truncate` | context_summarizer.py:21 | `s[:n]` is a prefix of `s` of length `min(len(s), n)`, and is `s` itself when `s` is no longer than `n` |
| `Strings.Join` | context_summarizer.py:26 | `sep.join(pieces)`: `""` for no pieces, the piece itself for one, and the first piece is always a prefix; its full meaning is given by `JoinLength`, `JoinAppend`, `JoinPieceAt` and `JoinSeparatorAfter` |
| `Strings.JoinLength` | context_summarizer.py:26 | A join has the pieces' total length plus one separator per gap between pieces |
| `Strings.JoinAppend` | context_summarizer.py:26 | Joining `a + b` (both non-empty) is joining `a`, a separator, then joining `b` |
| `Strings.JoinPieceAt` | context_summarizer.py:26 | Every piece appears unchanged at its offset in the join |
| `Strings.JoinSeparatorAfter` | context_summarizer.py:26 | Every piece but the last is followed by exactly one separator, and the next piece starts right after it |

## Left out

- scripts/generate_browser_tests.py (`generate_vectors`, `write_manifest`, `main`): drawing inputs depends on the Hypothesis library's seeded `.example()`. Writing the manifest is wall-clock time, JSON encoding and file-system I/O, and `main` only prints. The only logic left is pairing `vector_<idx>` with `summarize(input)`, which adds nothing to the summarizer's model.
- examples/react-web/model.py (`predict`, `predict_single`, `get_model_info`, `train`): a demo regression model built on floating-point arithmetic and module-level mutable weights. It does not use the summarizer.
- tests/strategies.py and tests/test_properties.py: Hypothesis scaffolding. They appear here only as the totality property above.
- Python's `str()` for values that are not strings is not modelled. It is the parameter `show`, a total function. In Python, a `__str__` that raises makes `summarize` raise too; the total `show` rules that case out.
- Strings that contain lone surrogate code points (U+D800 to U+DFFF) cannot be represented: a Python `str` may hold them, but a Dafny `char` cannot be a surrogate. One example is a fragment of 6000 `"\ud800"` characters, which Python cuts to 5000. Counting is the same as Python's on every string the model can represent.
- Inputs: the model takes the outer argument as an optional finite sequence. A Python iterable that raises or never ends while it is iterated, or an outer argument that is not iterable (which Python rejects with a `TypeError`), is not modelled. A plain string passed as the outer argument iterates over its characters and corresponds to a sequence of one-character `Text` fragments.
