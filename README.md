# Selector extraction transform

The extraction script `extract-selectors.js` asks the `list-selectors`
library for the class selectors of a compiled stylesheet and writes them to
`css-classes.json` as a JSON array of bare class names. Its only logic is the
per-token transform

    classes.map(c => c.substring(1).split("\\").join(""))

which drops the leading `.` of every selector token and deletes every
backslash in what remains, keeping the number and the order of the tokens.

The model has two modules:

- `JsString` (`js_string.dfy`) models the three JavaScript built-ins the
  transform chains, restricted to how it calls them: `substring` with one
  argument (clamped start index), `split` with a one-character separator
  (empty pieces kept, the empty string giving one empty piece) and `join`.
  It proves that splitting on a character and joining with that character
  gives the string back, and that there is one piece more than there are
  separators.
- `ExtractSelectors` (`extract_selectors.dfy`) writes `ClassName` as the
  literal chain `Join(Split(Substring(tok, 1), '\\'), "")` and `Extract` as the
  element-wise map over the token list. `StripBackslashes` is the reference
  definition of the second step. The lemma `JoinSplitIsStrip` connects the
  chain to it, so `ClassName(tok)` is `StripBackslashes` applied to the tail of
  `tok`, or to `""` when `tok` is empty. The lemmas then characterise
  `StripBackslashes` completely. Its result has no backslash. It is a
  subsequence of its input that keeps every other character as often as it
  occurs. Its length is the input's length minus the number of backslashes.
  Any backslash-free subsequence of that length equals it. Stripping is
  idempotent and distributes over concatenation.

The transform is modelled as the code writes it, not as CSS escape decoding.
A hex escape such as `\31 ` is not decoded, and an escaped backslash `\\`
loses both of its characters. Escape sequences are not collapsed into the
characters they stand for: every backslash is deleted and nothing else.

Running the transform twice on the same token list gives the same output
because `Extract` is a function. No separate member states this.

## Model

| member | source | states |
|---|---|---|
| `JsString.Substring` | extract-selectors.js:14 | `substring(start)` returns the suffix of `s` that starts at `start`, clamped to the string's bounds; on `""` it returns `""` |
| `JsString.Split` | extract-selectors.js:15 | `split(sep)` returns at least one piece and no piece contains the separator |
| `JsString.Join` | extract-selectors.js:16 | an empty list joins to `""`; otherwise the result's length is the pieces' total length plus one glue per gap |
| `JsString.SplitLength` | extract-selectors.js:15 | splitting yields exactly one piece more than the number of separators in the string |
| `JsString.JoinSplitRoundTrip` | extract-selectors.js:15-16 | joining the pieces of `s.split(sep)` with `sep` gives back `s` |
| `ExtractSelectors.StripBackslashes` | extract-selectors.js:15-16 | the stripped string holds no backslash and is no longer than its input |
| `ExtractSelectors.JoinSplitIsStrip` | extract-selectors.js:15-16 | `split("\\").join("")` equals deleting every backslash |
| `ExtractSelectors.ClassName` | extract-selectors.js:13-16 | a token's class name is its tail after the first character, or `""` for the empty token, with every backslash deleted; it holds no backslash, is at least one character shorter than a non-empty token (its length is at most the token's length minus one), and is empty for the empty token |
| `ExtractSelectors.Extract` | extract-selectors.js:12-17 | the output list has as many entries as there are tokens; entry `i` is the class name of token `i` alone; no entry holds a backslash |
| `ExtractSelectors.StripIdentity` | extract-selectors.js:15-16 | a string without backslashes is left unchanged |
| `ExtractSelectors.StripIdempotent` | extract-selectors.js:15-16 | stripping an already stripped string changes nothing |
| `ExtractSelectors.StripConcat` | extract-selectors.js:15-16 | stripping a concatenation is the concatenation of the stripped parts |
| `ExtractSelectors.StripIsSubsequence` | extract-selectors.js:15-16 | the stripped string is a subsequence of its input, so the kept characters are in their original relative order |
| `ExtractSelectors.StripCounts` | extract-selectors.js:15-16 | every non-backslash character occurs as often after stripping as before; the backslash does not occur at all |
| `ExtractSelectors.StripLength` | extract-selectors.js:15-16 | the stripped length is the input's length minus its number of backslashes |
| `ExtractSelectors.SubsequenceBound` | extract-selectors.js:15-16 | a backslash-free subsequence of `s` is at most as long as the non-backslash part of `s` |
| `ExtractSelectors.StripUnique` | extract-selectors.js:15-16 | a backslash-free subsequence of `s` of that maximal length is exactly the stripped `s` |
| `ExtractSelectors.PlainToken` | extract-selectors.js:14-16 | a token whose tail `tok.substring(1)` holds no backslash maps to exactly that tail; this covers the empty token, whose tail is `""` |
| `ExtractSelectors.EscapedToken` | extract-selectors.js:14-16 | a token whose tail holds exactly one backslash maps to its tail with that backslash removed |
| `ExtractSelectors.EscapedColonExample` | extract-selectors.js:13-16 | `.btn\:hover` maps to `btn:hover` |
| `ExtractSelectors.ExtractExample` | extract-selectors.js:12-17 | the token list `.btn`, `.btn\:hover`, `.card-title` maps to `btn`, `btn:hover`, `card-title` |
| `ExtractSelectors.ExtractEmpty` | extract-selectors.js:12 | the output is empty if and only if the token list is empty |
| `ExtractSelectors.ExtractConcat` | extract-selectors.js:12-17 | mapping a concatenation of token lists is the concatenation of the mapped lists, so output order follows input order |

## Left out

- The `list-selectors` call (extract-selectors.js:2, 5-8) is a third-party CSS parser. The model takes its `classes` result as a given `seq<string>`.
- The completion callback (extract-selectors.js:8) is asynchronous plumbing. The transform is a plain function of the token list.
- `JSON.stringify` (extract-selectors.js:11) is a library serializer. The output is modelled as the list of strings, not as JSON text, so the `[]` text for an empty run is not modelled.
- `fs.writeFileSync` and the fixed paths `./.main-tmp.css` and `./css-classes.json` (extract-selectors.js:3, 6, 9-10) are file I/O and are not modelled.
- Errors from the library or the file write (a missing input file, an unwritable output) are not caught by the script and are not modelled. The transform itself has no error path.
- `tailwind.config.js` is declarative configuration with no logic.
- JavaScript strings are sequences of UTF-16 code units, and `substring(1)` drops one code unit. The model uses Dafny `char` and does not model a leading surrogate pair. The tokens the library reports start with `.`, so this case does not arise for them.
- CSS escape decoding (hex escapes, escaped backslashes) is not modelled, because the code does not perform it.
