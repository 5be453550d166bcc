/**
 * The ECMAScript string operations that build.js relies on, on strings
 * modelled as sequences of characters: `includes` and the StringIndexOf
 * search behind it, `replace` with a string pattern and the GetSubstitution
 * expansion of its replacement value, and `slice`.
 */
module JsStrings {

  datatype Option<T> = None | Some(value: T)

  function Min(a: int, b: int): int { if a <= b then a else b }

  /** `pat` occurs in `text` starting at index `i`. */
  predicate OccursAt(text: string, pat: string, i: nat) {
    i + |pat| <= |text| && text[i..i + |pat|] == pat
  }

  /** `pat` occurs somewhere in `text`. */
  ghost predicate Contains(text: string, pat: string) {
    exists i: nat :: OccursAt(text, pat, i)
  }

  /** `i` is the leftmost index at which `pat` occurs in `text`. */
  ghost predicate IsFirstOccurrence(text: string, pat: string, i: nat) {
    OccursAt(text, pat, i) && forall j: nat :: j < i ==> !OccursAt(text, pat, j)
  }

  /** Before its first occurrence, `pat` does not occur at all. */
  lemma NoOccurrenceBeforeFirst(text: string, pat: string, i: nat, j: nat)
    requires IsFirstOccurrence(text, pat, i) && pat != []
    ensures !OccursAt(text[..i], pat, j)
  {
    if OccursAt(text[..i], pat, j) {
      assert text[j..j + |pat|] == text[..i][j..j + |pat|];
      assert OccursAt(text, pat, j);
    }
  }

  /**
   * The StringIndexOf abstract operation: the smallest index at or after
   * `from` where `pat` occurs, or None where the specification answers
   * "not found".
   */
  function IndexOf(text: string, pat: string, from: nat): (r: Option<nat>)
    decreases |text| - from
    ensures r.Some? ==> from <= r.value && OccursAt(text, pat, r.value)
    ensures r.Some? ==> forall j: nat :: from <= j < r.value ==> !OccursAt(text, pat, j)
    ensures r.None? ==> forall j: nat :: from <= j ==> !OccursAt(text, pat, j)
  {
    if from + |pat| > |text| then None
    else if text[from..from + |pat|] == pat then Some(from)
    else IndexOf(text, pat, from + 1)
  }

  /** `String.prototype.includes` with no start position. */
  predicate Includes(text: string, pat: string)
    ensures Includes(text, pat) <==> Contains(text, pat)
  {
    IndexOf(text, pat, 0).Some?
  }

  /** A search from the start finds exactly the first occurrence. */
  lemma IndexOfFindsFirst(text: string, pat: string, i: nat)
    ensures IndexOf(text, pat, 0) == Some(i) <==> IsFirstOccurrence(text, pat, i)
  {
    if IsFirstOccurrence(text, pat, i) {
      assert IndexOf(text, pat, 0).Some? by { assert OccursAt(text, pat, i); }
    }
  }

  /**
   * GetSubstitution (section 22.1.3.19.1 of ECMA-262, 2024 edition) as it runs
   * for `replace` with a string pattern: `matched` is the matched text, found
   * at `position` in `str`, there are no capture groups and no named groups.
   * Then only `$$`, `$&`, `` $` `` and `$'` have a meaning; `$n`, `$nn` and
   * `$<` refer to groups that do not exist and are copied as written, which
   * is the same as copying their characters one at a time.
   */
  function GetSubstitution(matched: string, str: string, position: nat, template: string): (r: string)
    requires position <= |str|
    decreases |template|
    ensures '$' !in template ==> r == template
  {
    if template == [] then []
    else if StartsDollarForm(template) then
      DollarForm(matched, str, position, template[1]) + GetSubstitution(matched, str, position, template[2..])
    else
      [template[0]] + GetSubstitution(matched, str, position, template[1..])
  }

  /** The characters that make a special form when they follow `$`. */
  predicate IsSpecialAfterDollar(c: char) {
    c == '$' || c == '`' || c == '&' || c == '\''
  }

  /** `template` begins with one of `$$`, `` $` ``, `$&` and `$'`. */
  predicate StartsDollarForm(template: string) {
    |template| >= 2 && template[0] == '$' && IsSpecialAfterDollar(template[1])
  }

  /**
   * What the special form `$c` stands for: a dollar sign, the text before
   * the match, the match, or the text after it.
   */
  function DollarForm(matched: string, str: string, position: nat, c: char): string
    requires position <= |str| && IsSpecialAfterDollar(c)
  {
    if c == '$' then "$"
    else if c == '`' then str[..position]
    else if c == '&' then matched
    else str[Min(position + |matched|, |str|)..]
  }

  /** `$&` alone expands to the matched text and `$$` to one dollar sign. */
  lemma GetSubstitutionSpecials(matched: string, str: string, position: nat)
    requires position <= |str|
    ensures GetSubstitution(matched, str, position, "$&") == matched
    ensures GetSubstitution(matched, str, position, "$$") == "$"
    ensures GetSubstitution(matched, str, position, "$'") == str[Min(position + |matched|, |str|)..]
    ensures GetSubstitution(matched, str, position, "$`") == str[..position]
  {
    var e: string := [];
    assert GetSubstitution(matched, str, position, e) == [];
    assert "$&"[0] == '$' && "$&"[1] == '&' && "$&"[2..] == e;
    assert "$$"[0] == '$' && "$$"[1] == '$' && "$$"[2..] == e;
    assert "$'"[0] == '$' && "$'"[1] == '\'' && "$'"[2..] == e;
    assert "$`"[0] == '$' && "$`"[1] == '`' && "$`"[2..] == e;
  }

  /** Expansion of a `$`-free head then a template is the head then the expansion. */
  lemma {:induction false} GetSubstitutionAppend(matched: string, str: string, position: nat, lit: string, rest: string)
    requires position <= |str|
    requires '$' !in lit
    ensures GetSubstitution(matched, str, position, lit + rest)
      == lit + GetSubstitution(matched, str, position, rest)
  {
    if lit != [] {
      var t := lit + rest;
      assert t[0] == lit[0] && lit[0] != '$';
      assert t[1..] == lit[1..] + rest;
      assert GetSubstitution(matched, str, position, t)
        == [lit[0]] + GetSubstitution(matched, str, position, t[1..]);
      GetSubstitutionAppend(matched, str, position, lit[1..], rest);
      assert lit == [lit[0]] + lit[1..];
    } else {
      assert lit + rest == rest;
    }
  }

  /**
   * Expansion of a template then a `$`-free tail is the expansion then the
   * tail, provided the tail cannot complete a special form begun by a
   * trailing `$` of the template.
   */
  lemma {:induction false} GetSubstitutionAppendTail(matched: string, str: string, position: nat, t: string, lit: string)
    requires position <= |str|
    requires '$' !in lit && (lit == [] || !IsSpecialAfterDollar(lit[0]))
    ensures GetSubstitution(matched, str, position, t + lit)
      == GetSubstitution(matched, str, position, t) + lit
    decreases |t|
  {
    if t == [] {
      assert t + lit == lit;
    } else if lit == [] {
      assert t + lit == t;
    } else if StartsDollarForm(t) {
      GetSubstitutionAppendTail(matched, str, position, t[2..], lit);
      DollarFormAppendTail(matched, str, position, t, lit);
    } else {
      GetSubstitutionAppendTail(matched, str, position, t[1..], lit);
      LiteralStepAppendTail(matched, str, position, t, lit);
    }
  }

  /** The step of GetSubstitutionAppendTail where the first character of `t` is copied. */
  lemma LiteralStepAppendTail(matched: string, str: string, position: nat, t: string, lit: string)
    requires position <= |str|
    requires lit != [] && !IsSpecialAfterDollar(lit[0])
    requires t != [] && !StartsDollarForm(t)
    requires GetSubstitution(matched, str, position, t[1..] + lit)
      == GetSubstitution(matched, str, position, t[1..]) + lit
    ensures GetSubstitution(matched, str, position, t + lit)
      == GetSubstitution(matched, str, position, t) + lit
  {
    var T := t + lit;
    assert T[0] == t[0] && T[1..] == t[1..] + lit;
    assert !StartsDollarForm(T) by { assert |T| >= 2 ==> T[1] == (t[1..] + lit)[0]; }
    var g := GetSubstitution(matched, str, position, t[1..]);
    calc {
      GetSubstitution(matched, str, position, T);
      [t[0]] + GetSubstitution(matched, str, position, t[1..] + lit);
      [t[0]] + (g + lit);
      { SeqAssoc([t[0]], g, lit); }
      ([t[0]] + g) + lit;
      GetSubstitution(matched, str, position, t) + lit;
    }
  }

  /** Concatenation of sequences is associative. */
  lemma SeqAssoc<T>(a: seq<T>, b: seq<T>, c: seq<T>)
    ensures a + (b + c) == (a + b) + c
  {
  }

  /** The step of GetSubstitutionAppendTail where `t` starts with a special `$` form. */
  lemma DollarFormAppendTail(matched: string, str: string, position: nat, t: string, lit: string)
    requires position <= |str|
    requires StartsDollarForm(t)
    requires GetSubstitution(matched, str, position, t[2..] + lit)
      == GetSubstitution(matched, str, position, t[2..]) + lit
    ensures GetSubstitution(matched, str, position, t + lit)
      == GetSubstitution(matched, str, position, t) + lit
  {
    var T := t + lit;
    assert T[0] == '$' && T[1] == t[1] && T[2..] == t[2..] + lit;
    var d := DollarForm(matched, str, position, t[1]);
    var g := GetSubstitution(matched, str, position, t[2..]);
    calc {
      GetSubstitution(matched, str, position, T);
      d + GetSubstitution(matched, str, position, t[2..] + lit);
      d + (g + lit);
      { SeqAssoc(d, g, lit); }
      (d + g) + lit;
      GetSubstitution(matched, str, position, t) + lit;
    }
  }

  /**
   * `String.prototype.replace(pat, replaceValue)` with a string `pat`:
   * only the first occurrence is replaced, by the GetSubstitution expansion
   * of `replaceValue`; without an occurrence the text is returned unchanged.
   */
  function ReplaceFirst(text: string, pat: string, replaceValue: string): (r: string)
    ensures !Contains(text, pat) ==> r == text
    ensures forall i: nat :: IsFirstOccurrence(text, pat, i) ==>
      r == text[..i] + GetSubstitution(pat, text, i, replaceValue) + text[i + |pat|..]
  {
    var found := IndexOf(text, pat, 0);
    if found.None? then text
    else
      var i := found.value;
      assert forall j: nat :: IsFirstOccurrence(text, pat, j) ==> j == i by {
        forall j: nat | IsFirstOccurrence(text, pat, j) ensures j == i {
          IndexOfFindsFirst(text, pat, j);
        }
      }
      text[..i] + GetSubstitution(pat, text, i, replaceValue) + text[i + |pat|..]
  }

  /** A single `$&` between `$`-free parts expands to the matched text. */
  lemma GetSubstitutionAmpersand(matched: string, str: string, position: nat, lit: string, rest: string)
    requires position <= |str|
    requires '$' !in lit && '$' !in rest
    ensures GetSubstitution(matched, str, position, lit + "$&" + rest) == lit + matched + rest
  {
    var t := "$&" + rest;
    assert lit + "$&" + rest == lit + t;
    GetSubstitutionAppend(matched, str, position, lit, t);
    assert t[0] == '$' && t[1] == '&' && t[2..] == rest;
  }

  /** Replacing in a text that is exactly the pattern yields the expansion alone. */
  lemma ReplaceWholeText(pat: string, v: string)
    ensures ReplaceFirst(pat, pat, v) == GetSubstitution(pat, pat, 0, v)
  {
    assert IsFirstOccurrence(pat, pat, 0);
    assert pat[..0] == [] && pat[|pat|..] == [];
  }

  /**
   * For a replacement value without `$`, the first occurrence is replaced by
   * the value verbatim, so the length changes by the difference in length.
   */
  lemma ReplaceFirstLiteral(text: string, pat: string, v: string, i: nat)
    requires IsFirstOccurrence(text, pat, i)
    requires '$' !in v
    ensures ReplaceFirst(text, pat, v) == text[..i] + v + text[i + |pat|..]
    ensures |ReplaceFirst(text, pat, v)| == |text| - |pat| + |v|
  {
    var g := GetSubstitution(pat, text, i, v);
    assert g == v;
    assert ReplaceFirst(text, pat, v) == text[..i] + g + text[i + |pat|..];
  }

  /**
   * Replacing the first occurrence by a `$`-free value leaves everything
   * before it and everything after it untouched, so later occurrences of
   * `pat` are still there, shifted by the difference in length.
   */
  lemma ReplaceFirstKeepsRest(text: string, pat: string, v: string, i: nat)
    requires IsFirstOccurrence(text, pat, i)
    requires '$' !in v
    ensures ReplaceFirst(text, pat, v)[..i] == text[..i]
    ensures ReplaceFirst(text, pat, v)[i..i + |v|] == v
    ensures ReplaceFirst(text, pat, v)[i + |v|..] == text[i + |pat|..]
    ensures forall j: nat :: i + |pat| <= j && OccursAt(text, pat, j) ==>
      OccursAt(ReplaceFirst(text, pat, v), pat, j - |pat| + |v|)
  {
    ReplaceFirstLiteral(text, pat, v, i);
    var head, tail := text[..i], text[i + |pat|..];
    var r := ReplaceFirst(text, pat, v);
    assert r == head + v + tail;
    assert r[..i] == head && r[i..i + |v|] == v && r[i + |v|..] == tail;
    forall j: nat | i + |pat| <= j && OccursAt(text, pat, j)
      ensures OccursAt(r, pat, j - |pat| + |v|)
    {
      OccurrenceInSuffix(text, pat, i + |pat|, j);
      OccurrenceLifts(head, v, tail, pat, j - i - |pat|);
    }
  }

  /** An occurrence at or after `start` is one in the suffix from `start`. */
  lemma OccurrenceInSuffix(s: string, pat: string, start: nat, j: nat)
    requires start <= j && OccursAt(s, pat, j)
    ensures OccursAt(s[start..], pat, j - start)
  {
    assert s[start..][j - start..j - start + |pat|] == s[j..j + |pat|];
  }

  /**
   * `String.prototype.slice(start, end)` for non-negative arguments: both
   * ends are clamped to the length, and an empty range gives "".
   */
  function Slice(s: string, start: nat, end: nat): (r: string)
    ensures |r| == if Min(start, |s|) <= Min(end, |s|) then Min(end, |s|) - Min(start, |s|) else 0
    ensures forall k :: 0 <= k < |r| ==> r[k] == s[start + k]
  {
    var from := Min(start, |s|);
    var to := Min(end, |s|);
    if from < to then s[from..to] else []
  }

  /** A slice from 0 is the prefix of length min(n, |s|). */
  lemma SliceFromStart(s: string, n: nat)
    ensures Slice(s, 0, n) <= s
    ensures |Slice(s, 0, n)| == Min(n, |s|)
  {
    var r := Slice(s, 0, n);
    assert r == s[..|r|];
  }

  /**
   * An occurrence of `pat` in `head + mid + tail` lies wholly inside one of
   * the three parts when neither end character of `mid` appears in `pat`.
   */
  lemma OccurrenceInConcat(head: string, mid: string, tail: string, pat: string, j: nat)
    requires OccursAt(head + mid + tail, pat, j)
    requires mid != []
    requires forall k :: 0 <= k < |pat| ==> pat[k] != mid[0] && pat[k] != mid[|mid| - 1]
    ensures OccursAt(head, pat, j)
      || (|head| <= j && OccursAt(mid, pat, j - |head|))
      || (|head| + |mid| <= j && OccursAt(tail, pat, j - |head| - |mid|))
  {
    var s, h, u, n := head + mid + tail, |head|, |mid|, |pat|;
    assert s[j..j + n] == pat;
    if j + n <= h {
      assert head[j..j + n] == s[j..j + n];
    } else if j < h {
      ConcatCharAt(head, mid, tail, pat, j, 0);
      assert false;
    } else if j + n <= h + u {
      assert mid[j - h..j - h + n] == s[j..j + n];
    } else if j < h + u {
      ConcatCharAt(head, mid, tail, pat, j, u - 1);
      assert false;
    } else {
      assert tail[j - h - u..j - h - u + n] == s[j..j + n];
    }
  }

  /** An occurrence at `j` that covers index `k` of `mid` puts that character in `pat`. */
  lemma ConcatCharAt(head: string, mid: string, tail: string, pat: string, j: nat, k: nat)
    requires OccursAt(head + mid + tail, pat, j)
    requires k < |mid| && j <= |head| + k < j + |pat|
    ensures pat[|head| + k - j] == mid[k]
  {
    var s := head + mid + tail;
    assert s[j..j + |pat|][|head| + k - j] == s[|head| + k];
  }

  /** An occurrence in the middle or in the tail is one in the whole. */
  lemma OccurrenceLifts(head: string, mid: string, tail: string, pat: string, j: nat)
    ensures OccursAt(mid, pat, j) ==> OccursAt(head + mid + tail, pat, |head| + j)
    ensures OccursAt(tail, pat, j) ==> OccursAt(head + mid + tail, pat, |head| + |mid| + j)
  {
    var s, h, u, n := head + mid + tail, |head|, |mid|, |pat|;
    if OccursAt(mid, pat, j) {
      assert s[h + j..h + j + n] == mid[j..j + n];
    }
    if OccursAt(tail, pat, j) {
      assert s[h + u + j..h + u + j + n] == tail[j..j + n];
    }
  }
}
