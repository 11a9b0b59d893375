# barbouse request-line parser, in Dafny

barbouse runs the HTTP request described by a small text file. The first line
of that file has the form `METHOD#URL[#FILTER]`. The `Command` class turns
that line into three fields:

- the HTTP method: the text before the first `#`, unchanged;
- the URL: the text between the first and the second `#` (or the end of the
  line). Every `{NAME}` in it is replaced by the value of environment
  variable `NAME`, one variable after another, in the order the environment
  is iterated;
- the jq filter: the third field, unchanged, or none when the line has fewer
  than three fields.

Everything after the third field is dropped. A line without `#` raises
`IndexError`, and no `Command` is produced.

The project has three modules:

- `Wrappers` (`wrappers.dfy`): `Option` and `Result`.
- `Text` (`text.dfy`): the Python string operations the parser uses.
  - `Split` is `str.split(sep)`.
  - `ReplaceAll` is `str.replace(old, new)`.
  - `Join` is `sep.join(parts)` for a non-empty list of parts. It is the reference that both are proved
    against: `s.replace(p, v) == v.join(s.split(p))`, and splitting then
    joining gives back the input.
- `Barbouse` (`barbouse.dfy`): the parser itself.
  - The environment is an explicit sequence of `EnvVar(name, value)` pairs.
  - `Substitute` is the specification of the templating loop. `Template` is
    that loop, proved against it.
  - `ParseLine` is the specification of `Command(line)`, as a `Result`.
  - The class `Command` has fields `verb` (the source's `method`, which is a
    reserved word in Dafny), `url` and `filter` (the source's `filtr`).
    `NewCommand` returns either a new `Command` or the `IndexError` case.

Three facts about the code shape the model:

- The code reads one line, `METHOD#URL[#FILTER]`, and no header lines. Only
  the URL is templated; the filter is taken as written.
- Substitution is sequential, so the order of the environment matters: a
  value can bring in a placeholder that a later variable fills
  (`SubstitutionOrderMatters`).
- Templating is not idempotent, even when no value contains `{`: with `A`
  set to the empty string, `{{A}A}` becomes `{A}`, and a second pass gives
  the empty string (`SubstituteNotIdempotent`).

## Model

| member | source | states |
|---|---|---|
| Text.Split | barbouse/barbouse.py:15 | `str.split` with a one-character separator: there is at least one field, no field contains the separator, and there is one more field than there are separators in the line |
| Text.SplitJoinRoundTrip | barbouse/barbouse.py:15 | joining the fields of `line.split(sep)` with `sep` gives back the line, so nothing is lost when the fields are cut |
| Text.ReplaceAll | barbouse/barbouse.py:20 | `str.replace` leaves the text unchanged when the pattern equals the replacement, or when the pattern's first character does not occur in the text |
| Text.ReplaceAllIsJoinOfSplit | barbouse/barbouse.py:20 | `s.replace(p, v) == v.join(s.split(p))` for every non-empty pattern; with `SplitFieldsAvoidSeparator` and `SplitCutsLeftmost`, every non-overlapping occurrence, found left to right, is replaced |
| Text.SplitCutsLeftmost | barbouse/barbouse.py:15 | `s.split(sep)` cuts at the leftmost occurrence: no occurrence of `sep` starts inside a field that a separator follows, even one overlapping that separator (for `{}{}` in `{}{}{}`, the cut is at position 0) |
| Text.SplitFieldsAvoidSeparator | barbouse/barbouse.py:15 | for every non-empty separator, of any length, no field of `s.split(sep)` contains an occurrence of `sep` at any position |
| Text.ReplaceAllAppend | barbouse/barbouse.py:20 | a character that the pattern does not end with, added at the end of the text, stays at the end after replacement |
| Barbouse.Substitute | barbouse/barbouse.py:18-20 | the URL is unchanged by templating when it contains no `{` (every placeholder starts with one), and when the environment is empty |
| Barbouse.Template | barbouse/barbouse.py:18-20 | the loop over the environment, which rewrites the URL once per variable, produces exactly the sequential substitution `Substitute` |
| Barbouse.SubstituteKeepsLast | barbouse/barbouse.py:18-20 | a trailing character other than `}` is still the last character after all the replacements, because every `{NAME}` ends with `}` |
| Barbouse.SubstitutionOrderMatters | barbouse/barbouse.py:18-20 | the replacements are sequential. With `A={B}` then `B=x`, `{A}` becomes `x`. With the order reversed, it becomes `{B}` |
| Barbouse.SubstituteNotIdempotent | barbouse/barbouse.py:18-20 | with `A` empty, `{{A}A}` becomes `{A}`, and substituting again gives the empty string, so templating is not idempotent |
| Barbouse.ParseLine | barbouse/barbouse.py:14-25 | parsing fails exactly when the line holds no `#` (the `IndexError` on `command[1]`); on success the method contains no `#` |
| Barbouse.VerbIsTextBeforeFirstHash | barbouse/barbouse.py:15-16 | the method is exactly the text before the first `#`, untrimmed and untemplated: the line is the method, a `#`, then the rest |
| Barbouse.ParseTwoFields | barbouse/barbouse.py:15-25 | for `verb#raw` with no further `#`: the method is `verb`, the URL is `raw` after sequential substitution, and the filter is none |
| Barbouse.ParseThreeFields | barbouse/barbouse.py:15-25 | for `verb#raw#filter` followed by nothing or by `#` and anything: the method is `verb`, the URL is the substituted `raw`, the filter is `filter` untemplated, and the later fields are dropped. A `#fragment` in a URL therefore cuts the URL short and becomes the filter |
| Barbouse.UrlKeepsTerminator | barbouse/barbouse.py:15-20 | with no filter, the line terminator that `readline` keeps (line 30) stays at the end of the templated URL, whatever the environment holds |
| Barbouse.FilterKeepsTerminator | barbouse/barbouse.py:24-25 | on a line with exactly three `#`-separated fields, the line terminator ends the filter |
| Barbouse.Command.constructor | barbouse/barbouse.py:14-25 | on a line containing `#`, the constructor assigns the method, the templated URL and the filter that `ParseLine` describes |
| Barbouse.NewCommand | barbouse/barbouse.py:14-17 | `Command(line)` yields a fresh object whose fields agree with `ParseLine`, or the `IndexError` case exactly when the line has no `#` |

## Left out

- `print(self.url)` (barbouse/barbouse.py:22): terminal output.
- `main` (barbouse/barbouse.py:27-38) is not modelled.
  - Argument handling and file reading are I/O. The line given to the
    parser is a parameter. The request body read at line 31 is never used.
  - The HTTP request, JSON decoding and `json.dumps` are library calls.
  - jq compilation and application are a foreign query engine.
  - pygments highlighting is terminal formatting.
- The environment is a parameter, not read from `os.environ`. Its order is
  the order in which the process environment iterates.
- Barbouse.Command.constructor: requires the line to contain `#`. Python's
  `__init__` raises `IndexError` on other lines, and `NewCommand` models
  that case.
- Text.Split: requires a non-empty separator. Python raises `ValueError` on
  an empty one, and the parser always splits on `#`.
