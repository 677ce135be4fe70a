# Student applicant validation — Dafny model

This project models the input validation of the applicant-admission service:
the `POST /validate` handler in `main.py`. It checks one applicant in a fixed
order, and the first failing check decides the answer:

1. The name is normalised. Surrounding whitespace is stripped, every run of
   whitespace becomes a single space, and the result is upper-cased.
2. `validate_name` must accept the normalised name. It is the regular
   expression `^[A-Z][A-Z\s]*$`. On failure the answer is `{"Error": "Invalid Name"}`.
3. The age must lie in 17..25. On failure the answer is `{"Error": "Invalid Age"}`.
4. Every mark must lie in 0..100. On failure the answer is
   `{"Error": "Invalid Marks: Marks should be between 0 and 100"}`.

When every check passes, the handler falls off its end and returns `None`.

The model is written as pure functions and lemmas, because the handler has no
mutable state and no loops:

- `ascii.dfy` (`Ascii`) holds the ASCII character classes and upper-casing.
- `normalize.dfy` (`NameNormalization`) holds `strip`, the `\s+` collapse and the whole
  normalisation `Normalize`. It proves the canonical shape of the result, that
  the non-whitespace content is kept, and that normalisation is idempotent.
- `words.dfy` (`NameWords`) holds a second definition of normalisation: split into words,
  join with single spaces, upper-case. It proves that both definitions agree.
- `name_pattern.dfy` (`NamePattern`) follows the regular expression piece by piece. The
  pieces are `[A-Z\s]*`, then `[A-Z][A-Z\s]*`, then the `^`/`$` anchors with
  Python's rule that `$` also matches before one final line feed.
- `validate.dfy` (`StudentValidation`) holds the check sequence `Validate`, which returns
  `NoError` or `Error(message)`. It also gives `NameAccepted`, a description of the
  accepted raw names that does not use normalisation. A raw name passes exactly
  when it has a non-whitespace character and every character is an ASCII
  letter or whitespace.

## Model

| member | source | states |
|---|---|---|
| `Ascii.ToUpper` | main.py:41 | `.upper()` on one ASCII character. The result is never lower-case. It is upper-case exactly when the input is a letter of either case. A lower-case letter becomes the upper-case letter at the same place in the alphabet. Whitespace stays whitespace. Characters that are not lower-case letters are unchanged. |
| `Ascii.Upper` | main.py:41 | `.upper()` on the whole name. The result has the input's length, and each character is the input's character at the same position, upper-cased. |
| `NameNormalization.TrimLeft` | main.py:41 | The leading half of `strip()`. The result is a suffix of the input and does not start with whitespace. Everything removed was whitespace. |
| `NameNormalization.TrimRight` | main.py:41 | The trailing half of `strip()`. The result is a prefix of the input and does not end with whitespace. Everything removed was whitespace. |
| `NameNormalization.Strip` | main.py:41 | `x.strip()`. The result neither starts nor ends with whitespace. It keeps every non-whitespace character of the input, in order. `StripIsInfix` states that nothing else is removed. |
| `NameNormalization.StripIsInfix` | main.py:41 | `x.strip()` is the contiguous slice of `x` that starts where the leading whitespace ends. Everything of `x` before and after that slice is whitespace, so interior whitespace is kept. |
| `NameNormalization.Collapse` | main.py:41 | `re.sub(r'\s+', ' ', ...)`. The result is empty exactly when the input is empty. It starts with whitespace exactly when the input does, and ends with whitespace exactly when the input does. |
| `NameNormalization.CollapseShape` | main.py:41 | After `re.sub(r'\s+', ' ', ...)` no two whitespace characters are adjacent, and every whitespace character left is a plain space. |
| `NameNormalization.CollapseFixed` | main.py:41 | A string with no whitespace run and no whitespace other than `' '` is unchanged by the collapse. |
| `NameNormalization.NonSpaceUpper` | main.py:41 | Upper-casing commutes with keeping the non-whitespace characters. |
| `NameNormalization.NonSpaceCollapse` | main.py:41 | Collapsing whitespace runs keeps the non-whitespace characters of the input unchanged and in order. |
| `NameNormalization.Normalize` | main.py:41 | The whole normalisation. The result has no leading or trailing whitespace and no two adjacent whitespace characters. Its only whitespace character is `' '`. It has no lower-case letter. Its non-whitespace characters are those of the input, upper-cased, in order. |
| `NameNormalization.CanonicalIsFixed` | main.py:41 | A name that already has the canonical shape is returned unchanged by normalisation. |
| `NameNormalization.NormalizeIdempotent` | main.py:41 | Normalising an already normalised name leaves it unchanged. |
| `NameNormalization.NonSpaceMembers` | main.py:41 | A character is among the kept non-whitespace characters exactly when it occurs in the name and is not whitespace. |
| `NameWords.Word` | main.py:41 | The longest whitespace-free prefix. The character after it, if any, is whitespace. |
| `NameWords.WordsAreWords` | main.py:41 | Every word that splitting produces is non-empty and contains no whitespace. |
| `NameWords.CollapseTrimmed` | main.py:41 | For a name with no leading or trailing whitespace, collapsing whitespace runs gives the same result as splitting into words and joining them with single spaces. |
| `NameWords.WordsIgnoreTrailingSpace` | main.py:41 | Trailing whitespace adds no word, so `strip()` does not change the word list. |
| `NameWords.NormalizeIsJoinedWords` | main.py:41 | The normalised name equals `" ".join(name.split()).upper()`. |
| `NamePattern.MatchStar` | main.py:32 | `[A-Z\s]*` matches a whole string exactly when every character is an upper-case letter or whitespace. |
| `NamePattern.ValidateName` | main.py:31-32 | `validate_name(s)` holds exactly when `s` is non-empty, `s[0]` is in `A`-`Z`, and every later character is in `A`-`Z` or is whitespace. This includes the case where `$` matches before a final line feed. |
| `StudentValidation.RawCharSurvives` | main.py:41-43 | Every non-whitespace character of the raw name reaches the pattern test, upper-cased. |
| `StudentValidation.NormalizedCharOrigin` | main.py:41-43 | Every non-whitespace character that the pattern test sees is an upper-cased non-whitespace character of the raw name. |
| `StudentValidation.NormalizedNameAccepted` | main.py:41-44 | The name check passes exactly when the raw name has a non-whitespace character and consists only of ASCII letters and whitespace. |
| `StudentValidation.Validate` | main.py:39-63 | Exactly one of four answers comes back. "Invalid Name" comes back exactly when the name check fails. "Invalid Age" comes back exactly when the name passes and the age is below 17 or above 25. The marks message comes back exactly when name and age pass and some mark is outside 0..100. `NoError` (the handler returns `None`) comes back exactly when all three checks pass. Name is checked first, then age, then marks, and a later check never decides the answer once an earlier one has failed. |
| `StudentValidation.BlankNameRejected` | main.py:13-63 | The default empty name, and any name made only of whitespace, is rejected with "Invalid Name" whatever the age and marks. |

## Left out

- FastAPI routing, the `GET /validate` handler and the pydantic `Student` model (main.py:3-4, 12-29, 35-37, 67-69). These are framework plumbing. The handler's inputs become the parameters of `Validate`: a name string, an integer age and a map from subject to mark.
- The `Query(max_length=50)` annotation on `name` (main.py:13). It is a framework constraint, not code the handler runs.
- The `check_gender` validator and the `Gender`, `Course` and `Subjects` enumerations (main.py:5, 20-26, 50). `enums.py` is not part of this model. `subject_list` is computed but never used.
- StudentValidation.Validate: the marks check is modelled by the range its error message states, which is any mark outside 0..100. As written, main.py:54 applies `x < 0 or x > 100` to a whole pandas column. That most likely raises pandas' "truth value of a Series is ambiguous" error, and the handler would return that text instead. pandas semantics are not modelled.
- Exceptions other than the three the handler raises itself. For example, an error from pandas would be caught and its text returned.
- Whitespace and upper-casing beyond the modelled ASCII subset. Whitespace is the six ASCII characters space, tab, line feed, carriage return, form feed and vertical tab. Python's `str.strip()` and `\s` also treat the ASCII control characters `\x1c`-`\x1f` and non-ASCII spaces as whitespace. Upper-casing maps only `a`-`z`, whereas Python's `str.upper()` also maps other scripts and can change a string's length (`ß` becomes `SS`).
- StudentValidation.NormalizedNameAccepted: `NameAccepted` describes the accepted names within the modelled character subset only. The handler also accepts some raw names that `NameAccepted` rejects, for example `"\x1cJ"` (stripped to `"J"`), `"Strauß"` (upper-cased to `"STRAUSS"`) and `"ıvan"` (upper-cased to `"IVAN"`).
- `db_interact.py` as a whole. It opens a database connection, runs a query and prints the rows, which is I/O with no logic to model.
