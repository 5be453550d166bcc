# Direktli build script, modelled in Dafny

The repository's only logic is `build.js`, a build step that runs when the
site is deployed. It reads the `APPS_SCRIPT_URL` environment variable and
rejects the build if the variable is unset or empty. It then rejects a value
that does not look like a Google Apps Script web-app URL
(`https://script.google.com/macros/s/<ID>/exec`). Next it reads `index.html`
and rejects the build if the placeholder `%%APPS_SCRIPT_URL%%` is not in it.
Otherwise it replaces the first placeholder with the URL, writes the result to
`dist/index.html`, and logs the first 48 characters of the URL.

The model has two modules.

- `JsStrings` (`jsstrings.dfy`) models the ECMAScript string operations the
  script calls:
  - the StringIndexOf search behind `includes`;
  - `replace` with a string pattern, including the GetSubstitution expansion
    of the replacement value (section 22.1.3.19.1 of ECMA-262, 2024 edition);
  - `slice`.
- `Injector` (`injector.dfy`) models the script itself:
  - the placeholder and URL-pattern constants;
  - the presence guard;
  - the URL validator, written as prefix, suffix and middle checks and proved
    equal to the language of the anchored regular expression;
  - `Build`, the outcome as a function of (environment value, page text);
  - `RunBuild`, the script's step-by-step form with early exits, proved to
    compute `Build`;
  - lemmas about error order, the rendered page, the preview and re-running.

The environment value is an `Option<string>`. The page text is an argument.
The outcome is `Failed(MissingConfiguration | InvalidConfiguration |
TokenNotFound)`, which carries no document, or `Written(document, preview)`,
which stands for the file write and the log line.

The page may hold the placeholder more than once: `build.js:49` requires at
least one, and `build.js:54` replaces only the first, leaving later ones in
place. A failed read or write is not caught by the code (see Left out).

## Model

| member | source | states |
|---|---|---|
| `JsStrings.IndexOf` | build.js:49 | the result is the least index at or after `from` where the pattern occurs, or None exactly when it doesn't occur there |
| `JsStrings.Includes` | build.js:49 | `includes` holds exactly when the pattern occurs somewhere in the text |
| `JsStrings.IndexOfFindsFirst` | build.js:54 | a search from 0 returns `i` exactly when `i` is the first occurrence |
| `JsStrings.GetSubstitution` | build.js:54 | a replacement value without `$` expands to itself |
| `JsStrings.GetSubstitutionSpecials` | build.js:54 | `$&` expands to the matched text, `$$` to `$`, `` $` `` to the text before the match, `$'` to the text after it |
| `JsStrings.GetSubstitutionAppend` | build.js:54 | a `$`-free head is copied as is, followed by the expansion of the rest |
| `JsStrings.GetSubstitutionAppendTail` | build.js:54 | a `$`-free tail that does not begin with `$`, `` ` ``, `&` or `'` is copied as is after the expansion of what precedes it |
| `JsStrings.GetSubstitutionAmpersand` | build.js:54 | `lit + "$&" + rest`, with `lit` and `rest` free of `$`, expands to `lit + matched + rest` |
| `JsStrings.ReplaceFirst` | build.js:54 | with no occurrence the text is unchanged; otherwise only the first occurrence is replaced, by the expansion of the value |
| `JsStrings.ReplaceWholeText` | build.js:54 | replacing in a text equal to the pattern gives just the expansion |
| `JsStrings.ReplaceFirstLiteral` | build.js:54 | for a `$`-free value and first occurrence `i`, the result is `text[..i] + v` followed by the text after the window, one pattern length shorter plus the length of `v` |
| `JsStrings.ReplaceFirstKeepsRest` | build.js:54 | for a `$`-free value `v` and first occurrence `i`, the text before `i` and after the replaced window is unchanged, and every later occurrence is still in the result, shifted by the length of `v` minus that of the pattern |
| `JsStrings.Slice` | build.js:61 | `slice(start, end)` clamps both ends to the length and returns the characters in between |
| `JsStrings.SliceFromStart` | build.js:61 | `slice(0, n)` is the prefix of `s` of length n, or all of `s` when it is shorter |
| `Injector.IsPresent` | build.js:24-27 | no contract of its own: the variable is set and not empty; ErrorOrder states what its failure leads to |
| `Injector.IsValidScriptUrl` | build.js:34-35 | no contract of its own: the direct check of the pattern; ValidIffMatchesPattern proves it equal to the pattern's language |
| `Injector.MatchesPattern` | build.js:34 | no contract of its own: the language of the anchored pattern, as a split into prefix, `.+` part and suffix; the reference definition for ValidIffMatchesPattern |
| `Injector.ValidIffMatchesPattern` | build.js:34-35 | the prefix/suffix/middle check accepts exactly the strings in the regular expression's language (both directions) |
| `Injector.AssembledUrlValid` | build.js:34-35 | prefix + any identifier of one or more non-line-terminators + `/exec` is accepted |
| `Injector.RejectsEmptyIdentifier` | build.js:34 | `https://script.google.com/macros/s//exec` is rejected |
| `Injector.RejectsHttp` | build.js:34 | no `http://` URL is accepted |
| `Injector.Build` | build.js:24-61 | no contract of its own: the outcome of a run; its properties are RunBuild, ErrorOrder, WrittenIffAllGuardsPass, WrittenDocument, PreviewIsPrefix and RerunOnOutput |
| `Injector.RunBuild` | build.js:24-61 | the step-by-step script, with its early exits, produces exactly the outcome `Build` defines |
| `Injector.ErrorOrder` | build.js:27-52 | a missing value gives MissingConfiguration whatever the page is; a present but invalid value gives InvalidConfiguration whatever the page is; TokenNotFound happens exactly when the value is present and valid and the page lacks the placeholder |
| `Injector.ConfigurationErrorsIgnoreSource` | build.js:27-39 | a configuration error is the same for any page text |
| `Injector.WrittenIffAllGuardsPass` | build.js:27-58 | a page is written exactly when all three guards pass; every other outcome is an error with no document |
| `Injector.WrittenDocument` | build.js:54-58 | for a valid `$`-free URL and first placeholder `i`, the written page is `source[..i] + url + source[i+19..]` and the preview is `slice(0, 48)` of the URL |
| `Injector.PreviewIsPrefix` | build.js:61 | the logged preview is a prefix of the URL, of length 48, or all of the URL when it is shorter, and a written URL has at least 41 characters |
| `Injector.ExpansionKeepsFixedParts` | build.js:34-54 | the expansion of a valid URL is the prefix, the expansion of the identifier, and the suffix: a `$` form in the identifier cannot touch the fixed parts |
| `Injector.ReplacedContains` | build.js:49-54 | for any valid URL, after the replacement the placeholder occurs exactly when it occurs in the expansion of the URL or in the page after the replaced one; no occurrence can straddle the expansion's ends |
| `Injector.RerunOnOutput` | build.js:49-54 | for any valid URL, running the script again on its own output fails with TokenNotFound exactly when neither the expansion of the URL nor the rest of the page holds another placeholder; for a `$`-free URL the expansion is the URL itself |
| `Injector.DollarAmpersandReinsertsToken` | build.js:34-54 | the URL `https://script.google.com/macros/s/$&/exec` passes validation, and the written page is that URL with `$&` expanded back into the placeholder |
| `Injector.ExampleBuild` | build.js:46-61 | with identifier `ABC123`, `<a href="%%APPS_SCRIPT_URL%%">x</a>` renders as the same link holding the URL; the preview is the whole URL |

## Left out

- File system work is left out: reading `index.html`, creating `dist/` and
  writing `dist/index.html`. The page text is an argument, and a `Written`
  outcome stands for the write. UTF-8 decoding and encoding are left out too.
  So a failed read or write is not modelled. The code does not catch either
  one; they end the process with an uncaught exception.
- The model does not capture that the page is read only after both URL
  checks. Only a read failure could observe that order, and read failures
  are not modelled.
- The console messages and the exit codes (0 and 1) are left out. The
  `BuildError` constructors and `Written` stand for them. The `...` that the
  success line prints after the preview is left out as well.
- The deployment instructions in the header comment are left out. They are
  documentation only.
- A general regular-expression engine is left out. Only the one fixed
  pattern is modelled, by its prefix, suffix and middle. `MatchesPattern` is
  its language, written as a split into the three parts.
- Strings are sequences of Dafny `char`, which are Unicode scalar values.
  ECMAScript strings are sequences of UTF-16 code units, and `slice(0, 48)`
  counts a character outside the Basic Multilingual Plane as two units. The
  model counts it as one, so for a URL with such characters before position
  48 the model's preview can differ. Validation is unaffected: neither half
  of a surrogate pair is a line terminator.
- `JsStrings.GetSubstitution`: the `$n`, `$nn` and `$<` forms are not written
  as separate branches. With no capture groups and no named groups they copy
  themselves literally, so character-by-character copying gives the same
  result.
