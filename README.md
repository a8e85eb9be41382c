# Patch-version bump for a mod's metadata file

This project models the core of `scripts/bump_version.py`. The script reads a
mod's `modinfo.json` and takes its `"version"` string. The string must be
`major.minor.patch` with three decimal parts. The script adds one to the patch,
writes the document back and returns the new version.

The model follows the script's three steps:

- **Parse** (`Strings`, `Decimal`, `SemVer.Parse`). Split the string on `.` the
  way Python's `str.split` does. Accept it only with exactly three parts, each a
  non-empty run of digits. Read each part as a decimal number.
- **Bump and render** (`SemVer.Render`, `SemVer.BumpPatch`). Add one to the
  patch. Render as `major.minor.patch` in plain decimal with no padding.
  Leading zeros on input therefore disappear on output: `1.2.03` becomes `1.2.4`.
- **Update the document** (`Bump.BumpDocument`, `Bump.ModInfo.BumpVersion`).
  Replace only the `"version"` entry. A missing key, a non-string value or a
  malformed string is an error, and nothing is written.

The decoded document is a `map<string, JsonValue>` (`Json`). `JsonValue` is a
tagged variant covering every kind of JSON value, so unknown entries are carried
through unchanged. The in-place update is the class `Bump.ModInfo`. Its field
`document` stands for what the file holds. `BumpVersion` works on a local copy,
increments a local `patch` and writes the copy back only after every check has
passed. The pure function `BumpDocument` specifies it.

The accepted strings are the normal versions of Semantic Versioning 2.0.0
(item 2), with two differences. Pre-release and build suffixes are rejected.
Leading zeros are accepted, although item 2 forbids them.

A non-string `"version"` (a number, a list, ...) makes `old.split` raise at
line 25. The model gives this case its own error, `VersionNotString`.

## Model

| member | source | states |
|---|---|---|
| `Strings.Split` | scripts/bump_version.py:25 | `old.split(".")` always yields at least one part (the empty string splits into one empty part) |
| `Strings.SplitIsDecomposition` | scripts/bump_version.py:25 | joining the parts of `old.split(".")` with dots gives `old` back, and no part contains a dot (empty parts are kept) |
| `Strings.SplitJoin` | scripts/bump_version.py:25 | splitting the join of separator-free parts returns exactly those parts, so Split is the unique such decomposition |
| `Decimal.IsDigits` | scripts/bump_version.py:26 | definition of `p.isdigit()` on ASCII: a non-empty run of '0'-'9' (false on "") |
| `Decimal.ParseNat` | scripts/bump_version.py:29 | definition of `int(p)` on a digit run: the decimal value, most significant digit first; its properties are the lemmas below |
| `Decimal.RenderNat` | scripts/bump_version.py:31 | the f-string numeral is a non-empty digit run with no leading zero, and starts with '0' exactly when the number is 0 |
| `Decimal.ParseRenderNat` | scripts/bump_version.py:29-31 | `int` of the rendered numeral gives the number back |
| `Decimal.RenderParseCanonical` | scripts/bump_version.py:29-31 | a numeral without leading zeros is rendered back to the same text after `int` |
| `Decimal.RenderParseIdentityIffCanonical` | scripts/bump_version.py:29-31 | parse-then-render leaves a digit run unchanged if and only if it has no leading zero |
| `Decimal.ParseNatLeadingZero` | scripts/bump_version.py:29 | a leading '0' does not change the value `int` gives |
| `Decimal.RenderParseStripsZeros` | scripts/bump_version.py:29-31 | parse-then-render of a digit run is that run with its leading zeros removed |
| `SemVer.WellFormedParts` | scripts/bump_version.py:26 | definition of the acceptance test: exactly three parts, each `IsDigits` |
| `SemVer.Parse` | scripts/bump_version.py:25-29 | definition of split, check and `int`; None for a rejected string. ParseAcceptsExactly, ParseAcceptedShape and ParseComponents state what it accepts and returns |
| `SemVer.Render` | scripts/bump_version.py:31 | definition of the f-string `"{major}.{minor}.{patch}"` in plain decimal; ParseRender and RenderParse relate it to Parse |
| `SemVer.ParseComponents` | scripts/bump_version.py:25-29 | `a.b.c` with three digit runs is accepted and parses to their three decimal values |
| `SemVer.ParseAcceptedShape` | scripts/bump_version.py:25-29 | an accepted string splits into exactly three digit runs that spell it with two dots, and its version is their values |
| `SemVer.ParseAcceptsExactly` | scripts/bump_version.py:25-27 | the string is accepted if and only if it matches `^[0-9]+\.[0-9]+\.[0-9]+$` (wrong part count, empty part or non-digit all reject) |
| `SemVer.ParseRender` | scripts/bump_version.py:26-31 | a rendered version is accepted and parses back to the same version |
| `SemVer.RenderParse` | scripts/bump_version.py:29-31 | rendering a parsed `a.b.c` gives each part with its leading zeros removed |
| `SemVer.BumpPatch` | scripts/bump_version.py:25-31 | succeeds exactly on accepted strings; the result is again accepted and parses to the same major and minor with the patch plus one, and it is exactly the unpadded render `major.minor.(patch+1)` of the parsed version |
| `SemVer.BumpComponents` | scripts/bump_version.py:29-31 | on `a.b.c` the result is the decimal values of a and b and one more than that of c, joined by dots |
| `SemVer.BumpTwice` | scripts/bump_version.py:30-32 | bumping is not idempotent: the result differs from the input, and a second bump gives patch plus two |
| `SemVer.BumpPlain` | scripts/bump_version.py:29-31 | "1.2.3" becomes "1.2.4" |
| `SemVer.BumpDropsLeadingZero` | scripts/bump_version.py:29-31 | "1.2.03" becomes "1.2.4" |
| `SemVer.BumpCarries` | scripts/bump_version.py:29-31 | "0.1.09" becomes "0.1.10" |
| `SemVer.BumpRejectsMalformed` | scripts/bump_version.py:25-27 | "1.2", "1.2.3.4", "1.2.x", "1..2" and "1.2." are rejected |
| `Bump.BumpDocument` | scripts/bump_version.py:21-32 | missing key, non-string value and malformed string each give their error (the last carrying the raw string); success exactly on an accepted string; on success same keys, every other entry unchanged, "version" holds the returned string, whose version is the old one with patch plus one, and the string is exactly the unpadded render `major.minor.(patch+1)` of it |
| `Bump.BumpDocumentTwice` | scripts/bump_version.py:30-32 | a second bump of the updated document succeeds with a different version, patch plus two, and every other entry still unchanged |
| `Bump.BumpDocumentExample` | scripts/bump_version.py:21-35 | `{"version": "1.2.3", "author": "Team"}` becomes `{"version": "1.2.4", "author": "Team"}` with result "1.2.4" |
| `Bump.ModInfo.constructor` | scripts/bump_version.py:20 | the stored document is the decoded contents |
| `Bump.ModInfo.BumpVersion` | scripts/bump_version.py:21-35 | the result and the new document are those of BumpDocument; on success the keys are the same, every other entry is unchanged and "version" holds the returned string; on failure the document is unchanged |

## Left out

- File access is not modelled: the existence check, reading and overwriting (scripts/bump_version.py:17-20, 34). `ModInfo.document` stands for the file's decoded contents, and assigning it stands for the write.
- JSON decoding and encoding are not modelled (scripts/bump_version.py:20, 34). This covers decoder errors and the output format: 2-space indent, non-ASCII left unescaped, trailing newline.
- Key order is not modelled. Python dicts keep insertion order and replacing a key keeps its position, but a Dafny `map` has no order.
- JSON numbers are kept as their literal text. The bump never reads them, so their numeric value does not matter.
- The command-line entry point `main` is not modelled (scripts/bump_version.py:38-51). It covers the default path, printing to stdout/stderr and exit codes 0 and 2.
- Digits are ASCII `0`-`9` only. Python's `str.isdigit` also accepts other Unicode digits such as `'²'`, and `int()` then raises on some of them (scripts/bump_version.py:26, 29).
- SemVer.BumpPatch has no digit limit: recent CPython releases make `int()` (scripts/bump_version.py:29) and the f-string (line 31) raise `ValueError` beyond 4300 decimal digits (the default of `sys.set_int_max_str_digits`), while the model's `nat` is unbounded and returns a result there. The limit depends on the interpreter version and its settings.
- Bump.BumpDocument has no digit limit either, for the same reason: where that `ValueError` would leave the file unwritten, the model succeeds.
- Bump.ModInfo.BumpVersion has no digit limit either, for the same reason.
- The document root is always a mapping. A JSON list or scalar root fails in Python with various exceptions (scripts/bump_version.py:21-25).
