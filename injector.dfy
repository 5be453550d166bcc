/**
 * The Direktli build script (build.js): it takes the APPS_SCRIPT_URL
 * environment value and the text of index.html, checks that the value is
 * present and shaped like a Google Apps Script web-app URL, checks that the
 * page holds the placeholder token, and renders the page with the first
 * placeholder replaced by the URL, plus a short preview of the URL for the
 * build log. Reading and writing files is outside the model: the page text
 * is an argument and the rendered page is part of the returned outcome.
 */
module Injector {
  import opened JsStrings

  /** The placeholder that index.html carries in place of the URL. */
  const Token: string := "%%APPS_SCRIPT_URL%%"

  /** The fixed parts of `^https://script\.google\.com/macros/s/.+/exec$`. */
  const UrlPrefix: string := "https://script.google.com/macros/s/"
  const UrlSuffix: string := "/exec"

  /** How many characters of the URL the success message shows. */
  const PreviewLength: nat := 48

  datatype BuildError = MissingConfiguration | InvalidConfiguration | TokenNotFound

  /** A failed build writes nothing; a successful one writes `document`. */
  datatype Outcome = Failed(error: BuildError) | Written(document: string, preview: string)

  /**
   * `!SCRIPT_URL` is false: the variable is set, and not to the empty
   * string (environment values are strings, so these are the only falsy cases).
   */
  predicate IsPresent(env: Option<string>) {
    env.Some? && env.value != ""
  }

  /** The characters that ECMAScript's `.` does not match without the `s` flag. */
  predicate IsLineTerminator(c: char) {
    c == '\n' || c == '\r' || c == '\U{2028}' || c == '\U{2029}'
  }

  /**
   * VALID_PATTERN.test(url), decided directly: the fixed prefix, the fixed
   * suffix, and between them at least one character, none of them a line
   * terminator.
   */
  predicate IsValidScriptUrl(url: string) {
    |url| >= |UrlPrefix| + 1 + |UrlSuffix|
    && url[..|UrlPrefix|] == UrlPrefix
    && url[|url| - |UrlSuffix|..] == UrlSuffix
    && forall k :: |UrlPrefix| <= k < |url| - |UrlSuffix| ==> !IsLineTerminator(url[k])
  }

  /** The language of `.+`: one or more characters other than line terminators. */
  ghost predicate IsDotPlus(m: string) {
    |m| >= 1 && forall c :: c in m ==> !IsLineTerminator(c)
  }

  /**
   * The set of strings the anchored regular expression matches: the whole
   * string splits into the literal prefix, a `.+` part and the literal suffix.
   */
  ghost predicate MatchesPattern(url: string) {
    exists p: nat, q: nat :: p <= q <= |url| && url[..p] == UrlPrefix
      && IsDotPlus(url[p..q]) && url[q..] == UrlSuffix
  }

  /** The direct check accepts exactly the strings the regular expression matches. */
  lemma ValidIffMatchesPattern(url: string)
    ensures IsValidScriptUrl(url) <==> MatchesPattern(url)
  {
    ConstantFacts();
    var p, q := |UrlPrefix|, |url| - |UrlSuffix|;
    if IsValidScriptUrl(url) {
      var m := url[p..q];
      forall c | c in m ensures !IsLineTerminator(c) {
        var k :| 0 <= k < |m| && m[k] == c;
        assert url[p + k] == c;
      }
      assert IsDotPlus(m);
    }
    if MatchesPattern(url) {
      var p': nat, q': nat :| p' <= q' <= |url| && url[..p'] == UrlPrefix
        && IsDotPlus(url[p'..q']) && url[q'..] == UrlSuffix;
      assert p' == p && q' == q;
      forall k | p <= k < q ensures !IsLineTerminator(url[k]) {
        assert url[k] == url[p..q][k - p];
      }
    }
  }

  /** The lengths of the fixed strings; neither URL part holds `$`. */
  lemma ConstantFacts()
    ensures |UrlPrefix| == 35 && |UrlSuffix| == 5 && |Token| == 19
    ensures '$' !in UrlPrefix && '$' !in UrlSuffix
  {
  }

  /** A valid URL begins with `h` and ends with `c`, and the placeholder holds neither. */
  lemma UrlEndsNotInToken()
    ensures UrlPrefix[0] == 'h' && UrlSuffix[|UrlSuffix| - 1] == 'c'
    ensures forall k :: 0 <= k < |Token| ==> Token[k] != 'h' && Token[k] != 'c'
  {
  }

  /** Any identifier of one or more non-line-terminator characters makes a valid URL. */
  lemma AssembledUrlValid(id: string)
    requires IsDotPlus(id)
    ensures IsValidScriptUrl(UrlPrefix + id + UrlSuffix)
  {
    var url := UrlPrefix + id + UrlSuffix;
    var p := |UrlPrefix|;
    assert url[..p] == UrlPrefix;
    assert url[|url| - |UrlSuffix|..] == UrlSuffix;
    forall k | p <= k < |url| - |UrlSuffix| ensures !IsLineTerminator(url[k]) {
      assert url[k] == id[k - p];
    }
  }

  /** The identifier between the prefix and the suffix may not be empty. */
  lemma RejectsEmptyIdentifier()
    ensures !IsValidScriptUrl(UrlPrefix + UrlSuffix)
  {
  }

  /** A URL with the `http` scheme is never accepted. */
  lemma RejectsHttp(url: string)
    requires |url| >= 7 && url[..7] == "http://"
    ensures !IsValidScriptUrl(url)
  {
    assert url[4] == ':' by { assert url[..7][4] == url[4]; }
    if |url| >= |UrlPrefix| {
      assert url[..|UrlPrefix|][4] == url[4];
    }
  }

  /**
   * The script's outcome. The checks run in the order of the source, each
   * failure ends the run before anything is written, and only a run that
   * passes all three renders the page.
   */
  function Build(env: Option<string>, source: string): Outcome {
    if !IsPresent(env) then Failed(MissingConfiguration)
    else if !IsValidScriptUrl(env.value) then Failed(InvalidConfiguration)
    else if !Includes(source, Token) then Failed(TokenNotFound)
    else Written(ReplaceFirst(source, Token, env.value), Slice(env.value, 0, PreviewLength))
  }

  /**
   * The script as it runs: guard after guard with an early exit, then the
   * page text is read, then reassigned to its substituted form.
   */
  method RunBuild(env: Option<string>, source: string) returns (outcome: Outcome)
    ensures outcome == Build(env, source)
  {
    if !IsPresent(env) {
      return Failed(MissingConfiguration);
    }
    var scriptUrl := env.value;
    if !IsValidScriptUrl(scriptUrl) {
      return Failed(InvalidConfiguration);
    }
    var html := source;
    if !Includes(html, Token) {
      return Failed(TokenNotFound);
    }
    html := ReplaceFirst(html, Token, scriptUrl);
    outcome := Written(html, Slice(scriptUrl, 0, PreviewLength));
  }

  /**
   * The order of the errors: a missing value wins over everything, an
   * invalid value over the page, and a missing token is reported only for a
   * present and valid URL and exactly when the page lacks the token.
   */
  lemma ErrorOrder(env: Option<string>, source: string)
    ensures !IsPresent(env) ==> Build(env, source) == Failed(MissingConfiguration)
    ensures IsPresent(env) && !IsValidScriptUrl(env.value) ==>
      Build(env, source) == Failed(InvalidConfiguration)
    ensures Build(env, source) == Failed(TokenNotFound) <==>
      IsPresent(env) && IsValidScriptUrl(env.value) && !Contains(source, Token)
  {
  }

  /** The configuration errors do not depend on the page text. */
  lemma ConfigurationErrorsIgnoreSource(env: Option<string>, source: string, other: string)
    requires Build(env, source).Failed? && Build(env, source).error != TokenNotFound
    ensures Build(env, other) == Build(env, source)
  {
  }

  /** A page is rendered exactly when all three guards pass. */
  lemma WrittenIffAllGuardsPass(env: Option<string>, source: string)
    ensures Build(env, source).Written? <==>
      IsPresent(env) && IsValidScriptUrl(env.value) && Contains(source, Token)
  {
  }

  /**
   * The rendered page of a valid URL without `$`, with `i` the first
   * placeholder: the page before `i`, then the URL, then the page after the
   * placeholder (ReplaceFirstKeepsRest says what this leaves unchanged).
   */
  lemma WrittenDocument(url: string, source: string, i: nat)
    requires IsValidScriptUrl(url) && '$' !in url
    requires IsFirstOccurrence(source, Token, i)
    ensures Build(Some(url), source)
      == Written(source[..i] + url + source[i + |Token|..], Slice(url, 0, PreviewLength))
  {
    assert Contains(source, Token) by { assert OccursAt(source, Token, i); }
    ReplaceFirstLiteral(source, Token, url, i);
  }

  /** The log shows the first min(48, |url|) characters of the URL. */
  lemma PreviewIsPrefix(env: Option<string>, source: string)
    requires Build(env, source).Written?
    ensures Build(env, source).preview <= env.value
    ensures |Build(env, source).preview| == Min(PreviewLength, |env.value|)
    ensures |UrlPrefix| + 1 + |UrlSuffix| <= |env.value|
  {
    SliceFromStart(env.value, PreviewLength);
  }

  /**
   * The expansion of a valid URL as a replacement value keeps the fixed
   * parts: only the identifier between them can hold a `$` form, and the
   * suffix begins with `/`, which completes none. So it begins with `h` and
   * ends with `c`, as the URL does.
   */
  lemma ExpansionKeepsFixedParts(url: string, source: string, i: nat)
    requires IsValidScriptUrl(url) && i <= |source|
    ensures GetSubstitution(Token, source, i, url) == UrlPrefix
      + GetSubstitution(Token, source, i, url[|UrlPrefix|..|url| - |UrlSuffix|]) + UrlSuffix
  {
    var id := url[|UrlPrefix|..|url| - |UrlSuffix|];
    ValidUrlSplits(url);
    ConstantFacts();
    assert UrlSuffix[0] == '/';
    var g := GetSubstitution(Token, source, i, id);
    calc {
      GetSubstitution(Token, source, i, url);
      { GetSubstitutionAppend(Token, source, i, UrlPrefix, id + UrlSuffix); }
      UrlPrefix + GetSubstitution(Token, source, i, id + UrlSuffix);
      { GetSubstitutionAppendTail(Token, source, i, id, UrlSuffix); }
      UrlPrefix + (g + UrlSuffix);
      { SeqAssoc(UrlPrefix, g, UrlSuffix); }
      UrlPrefix + g + UrlSuffix;
    }
  }

  /** A valid URL is the prefix, the identifier between the fixed parts, and the suffix. */
  lemma ValidUrlSplits(url: string)
    requires IsValidScriptUrl(url)
    ensures url == UrlPrefix + (url[|UrlPrefix|..|url| - |UrlSuffix|] + UrlSuffix)
  {
    var p, q := |UrlPrefix|, |url| - |UrlSuffix|;
    assert url == url[..p] + (url[p..q] + url[q..]);
  }

  /**
   * Where the placeholder can be after the first one in `source` was
   * replaced, for any valid URL: inside the expansion of the URL or after
   * it, never across its ends, because the expansion begins with `h` and
   * ends with `c`, and the placeholder holds neither.
   */
  lemma ReplacedContains(url: string, source: string, i: nat)
    requires IsValidScriptUrl(url)
    requires IsFirstOccurrence(source, Token, i)
    ensures Contains(ReplaceFirst(source, Token, url), Token) <==>
      Contains(GetSubstitution(Token, source, i, url), Token)
      || Contains(source[i + |Token|..], Token)
  {
    var head, e, tail := source[..i], GetSubstitution(Token, source, i, url), source[i + |Token|..];
    var out := head + e + tail;
    assert ReplaceFirst(source, Token, url) == out;
    ConstantFacts();
    UrlEndsNotInToken();
    ExpansionKeepsFixedParts(url, source, i);
    var g := GetSubstitution(Token, source, i, url[|UrlPrefix|..|url| - |UrlSuffix|]);
    assert e[0] == 'h' by { assert e == UrlPrefix + (g + UrlSuffix); }
    assert e[|e| - 1] == 'c' by { assert e == (UrlPrefix + g) + UrlSuffix; }
    if Contains(out, Token) {
      var j: nat :| OccursAt(out, Token, j);
      OccurrenceInConcat(head, e, tail, Token, j);
      NoOccurrenceBeforeFirst(source, Token, i, j);
    }
    if Contains(e, Token) {
      var j: nat :| OccursAt(e, Token, j);
      OccurrenceLifts(head, e, tail, Token, j);
    }
    if Contains(tail, Token) {
      var j: nat :| OccursAt(tail, Token, j);
      OccurrenceLifts(head, e, tail, Token, j);
    }
  }

  /**
   * Running the script again on its own output fails with the missing-token
   * error exactly when neither the expansion of the URL nor the page after
   * the replaced placeholder holds another placeholder; for a URL without
   * `$` the expansion is the URL itself.
   */
  lemma RerunOnOutput(url: string, source: string, i: nat)
    requires IsValidScriptUrl(url)
    requires IsFirstOccurrence(source, Token, i)
    ensures Build(Some(url), Build(Some(url), source).document) == Failed(TokenNotFound) <==>
      !Contains(GetSubstitution(Token, source, i, url), Token)
      && !Contains(source[i + |Token|..], Token)
    ensures '$' !in url ==>
      (Build(Some(url), Build(Some(url), source).document) == Failed(TokenNotFound) <==>
        !Contains(url, Token) && !Contains(source[i + |Token|..], Token))
  {
    assert Contains(source, Token) by { assert OccursAt(source, Token, i); }
    var out := Build(Some(url), source).document;
    assert out == ReplaceFirst(source, Token, url);
    ErrorOrder(Some(url), out);
    ReplacedContains(url, source, i);
  }

  /**
   * A URL that passes validation may hold `$&`, which the replacement
   * expands to the matched placeholder: the page then gets the placeholder
   * back inside the URL instead of the URL as written.
   */
  lemma DollarAmpersandReinsertsToken(url: string)
    requires url == UrlPrefix + "$&" + UrlSuffix
    ensures IsValidScriptUrl(url)
    ensures Build(Some(url), Token) == Written(UrlPrefix + Token + UrlSuffix, Slice(url, 0, PreviewLength))
  {
    ConstantFacts();
    AssembledUrlValid("$&");
    assert Contains(Token, Token) by { assert OccursAt(Token, Token, 0); }
    var r := ReplaceFirst(Token, Token, url);
    assert Build(Some(url), Token) == Written(r, Slice(url, 0, PreviewLength));
    ReplaceWholeText(Token, url);
    GetSubstitutionAmpersand(Token, Token, 0, UrlPrefix, UrlSuffix);
  }

  /**
   * An example: with the identifier `ABC123`, the page
   * `<a href="%%APPS_SCRIPT_URL%%">x</a>` renders as the same link with the
   * URL in place of the placeholder, and the whole URL is short enough to be
   * its own preview.
   */
  lemma ExampleBuild(url: string, page: string)
    requires url == UrlPrefix + "ABC123" + UrlSuffix
    requires page == "<a href=\"" + Token + "\">x</a>"
    ensures Build(Some(url), page) == Written("<a href=\"" + url + "\">x</a>", url)
  {
    ConstantFacts();
    AssembledUrlValid("ABC123");
    var head, tail := "<a href=\"", "\">x</a>";
    assert OccursAt(page, Token, 9) by {
      assert page[9..9 + |Token|] == Token;
    }
    forall j: nat | j < 9 ensures !OccursAt(page, Token, j) {
      assert page[j] == head[j] && page[j] != '%';
      assert page[j..j + |Token|][0] == page[j];
    }
    assert '$' !in url;
    WrittenDocument(url, page, 9);
    assert page[..9] == head && page[9 + |Token|..] == tail;
    PreviewIsPrefix(Some(url), page);
    assert Slice(url, 0, PreviewLength) == url[..|url|];
  }
}
