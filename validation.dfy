/** The `InputValidator` string checks and sanitisers, the recursive
    `sanitize_input`, and the required-field check that `require_validation`
    runs before a route body (App/backend/security.py). Every check that the
    source raises `SecurityError` for yields a `Failure` carrying the reason. */
module InputValidation {
  import opened Common
  import opened Text

  /** The reasons `SecurityError` is raised with. */
  datatype SecurityError =
    | InputTooLong(maxLength: int)
    | EmailRequired
    | InvalidEmailFormat
    | BelowMinimum(minVal: real)
    | AboveMaximum(maxVal: real)
    | FilenameRequired
    | InvalidFilename
    | MissingRequiredField(field: string)

  /** Default `max_length` of `sanitize_string`, the one `sanitize_input` uses. */
  const DefaultMaxLength: int := 1000

  // ---------------------------------------------------------------------
  // sanitize_string
  // ---------------------------------------------------------------------

  /** The class `[\x00-\x08\x0B\x0C\x0E-\x1F\x7F]`: tab, line feed and
      carriage return are not in it. */
  predicate IsControl(c: char)
  {
    var n := c as int;
    (0 <= n <= 0x08) || n == 0x0B || n == 0x0C || (0x0E <= n <= 0x1F) || n == 0x7F
  }

  predicate NoControl(s: string)
  {
    forall i :: 0 <= i < |s| ==> !IsControl(s[i])
  }

  /** `re.sub(control_class, '', s)`: every control character goes, every
      other character stays, each as often as it occurred. */
  function RemoveControl(s: string): (r: string)
    ensures NoControl(r)
    ensures |r| <= |s|
    ensures forall c :: !IsControl(c) ==> multiset(r)[c] == multiset(s)[c]
    ensures NoControl(s) ==> r == s
  {
    if s == [] then []
    else
      var rest := RemoveControl(s[1..]);
      assert s == [s[0]] + s[1..];
      assert multiset(s) == multiset{s[0]} + multiset(s[1..]);
      if IsControl(s[0]) then rest
      else
        assert multiset([s[0]] + rest) == multiset{s[0]} + multiset(rest);
        [s[0]] + rest
  }

  /** The substitution acts on each character where it stands: removing from
      a concatenation is removing from each part, so the kept characters
      keep their order. */
  lemma {:induction false} RemoveControlConcat(a: string, b: string)
    ensures RemoveControl(a + b) == RemoveControl(a) + RemoveControl(b)
  {
    if a == [] {
      assert a + b == b;
    } else {
      assert (a + b)[1..] == a[1..] + b;
      RemoveControlConcat(a[1..], b);
    }
  }

  /** The characters `html.escape` rewrites, besides `&`. */
  predicate IsMarkup(c: char)
  {
    c == '<' || c == '>' || c == '"' || c == '\''
  }

  /** `html.escape(s, quote=True)` on one character. */
  function EscapeChar(c: char): (r: string)
    ensures r != []
  {
    if c == '&' then "&amp;"
    else if c == '<' then "&lt;"
    else if c == '>' then "&gt;"
    else if c == '"' then "&quot;"
    else if c == '\'' then "&#x27;"
    else [c]
  }

  /** `html.escape(s)`: its five successive replacements act character by
      character, because no replacement text contains a later pattern. */
  function HtmlEscape(s: string): (r: string)
    ensures |r| >= |s|
  {
    if s == [] then [] else EscapeChar(s[0]) + HtmlEscape(s[1..])
  }

  /** Text without `&` or markup characters is left as it is. */
  lemma {:induction false} EscapePlainText(s: string)
    requires forall i :: 0 <= i < |s| ==> s[i] != '&' && !IsMarkup(s[i])
    ensures HtmlEscape(s) == s
  {
    if s != [] {
      assert forall i :: 0 <= i < |s| - 1 ==> s[1..][i] == s[i + 1];
      EscapePlainText(s[1..]);
      assert s == [s[0]] + s[1..];
    }
  }

  /** The inverse of `HtmlEscape`: the five entities it produces are read
      back, every other character stands for itself. */
  function HtmlUnescape(s: string): string
  {
    if s == [] then []
    else if s[0] != '&' then [s[0]] + HtmlUnescape(s[1..])
    else if StartsWith(s, "&amp;") then "&" + HtmlUnescape(s[5..])
    else if StartsWith(s, "&lt;") then "<" + HtmlUnescape(s[4..])
    else if StartsWith(s, "&gt;") then ">" + HtmlUnescape(s[4..])
    else if StartsWith(s, "&quot;") then "\"" + HtmlUnescape(s[6..])
    else if StartsWith(s, "&#x27;") then "'" + HtmlUnescape(s[6..])
    else [s[0]] + HtmlUnescape(s[1..])
  }

  predicate Occurs(s: string, i: nat, e: string)
  {
    i + |e| <= |s| && s[i..i + |e|] == e
  }

  /** Position `i` of `s` begins one of the five entities `html.escape` emits. */
  predicate EntityAt(s: string, i: nat)
  {
    Occurs(s, i, "&amp;") || Occurs(s, i, "&lt;") || Occurs(s, i, "&gt;")
    || Occurs(s, i, "&quot;") || Occurs(s, i, "&#x27;")
  }

  /** Text safe to embed in HTML: no control character, no `<`, `>`, `"` or
      `'`, and every `&` begins an entity. */
  predicate SafeForHtml(s: string)
  {
    && NoControl(s)
    && (forall i :: 0 <= i < |s| ==> !IsMarkup(s[i]))
    && (forall i :: 0 <= i < |s| && s[i] == '&' ==> EntityAt(s, i))
  }

  function SanitizeString(value: string, maxLength: int): (r: Result<string, SecurityError>)
    ensures r.Failure? <==> |value| > maxLength
    ensures r.Failure? ==> r.error == InputTooLong(maxLength)
    ensures r.Success? ==> SafeForHtml(r.value) && NoEdgeSpace(r.value)
    ensures r.Success? ==> HtmlUnescape(r.value) == Strip(RemoveControl(value))
  {
    if |value| > maxLength then Failure(InputTooLong(maxLength))
    else
      var kept := RemoveControl(value);
      var escaped := HtmlEscape(kept);
      EscapedIsSafe(kept);
      StripKeepsSafe(escaped);
      StripCommutesWithEscape(kept);
      EscapeRoundTrip(Strip(kept));
      Success(Strip(escaped))
  }

  /** The length limit is on the raw input: escaping can make an accepted
      value longer than the limit. */
  lemma EscapingCanExceedLimit()
    ensures SanitizeString("<", 1) == Success("&lt;")
  {
    var lt := "<";
    assert NoControl(lt);
    assert RemoveControl(lt) == lt;
    assert HtmlEscape(lt[1..]) == [];
    assert HtmlEscape(lt) == "&lt;";
    StripOfPadded("", "&lt;", "");
    assert "" + "&lt;" + "" == "&lt;";
  }

  lemma {:induction false} EscapeConcat(x: string, y: string)
    ensures HtmlEscape(x + y) == HtmlEscape(x) + HtmlEscape(y)
  {
    if x == [] {
      assert x + y == y;
    } else {
      assert (x + y)[0] == x[0];
      assert (x + y)[1..] == x[1..] + y;
      EscapeConcat(x[1..], y);
    }
  }

  lemma {:induction false} OccursInConcat(x: string, y: string, i: nat, e: string)
    ensures Occurs(x, i, e) ==> Occurs(x + y, i, e)
    ensures Occurs(y, i, e) ==> Occurs(x + y, |x| + i, e)
  {
    if Occurs(x, i, e) {
      assert (x + y)[i..i + |e|] == x[i..i + |e|];
    }
    if Occurs(y, i, e) {
      assert (x + y)[|x| + i..|x| + i + |e|] == y[i..i + |e|];
    }
  }

  lemma SafeConcat(x: string, y: string)
    requires SafeForHtml(x) && SafeForHtml(y)
    ensures SafeForHtml(x + y)
  {
    var s := x + y;
    forall i | 0 <= i < |s| && s[i] == '&' ensures EntityAt(s, i) {
      if i < |x| {
        assert x[i] == '&';
        OccursInConcat(x, y, i, "&amp;");
        OccursInConcat(x, y, i, "&lt;");
        OccursInConcat(x, y, i, "&gt;");
        OccursInConcat(x, y, i, "&quot;");
        OccursInConcat(x, y, i, "&#x27;");
      } else {
        var j := i - |x|;
        assert y[j] == '&';
        OccursInConcat(x, y, j, "&amp;");
        OccursInConcat(x, y, j, "&lt;");
        OccursInConcat(x, y, j, "&gt;");
        OccursInConcat(x, y, j, "&quot;");
        OccursInConcat(x, y, j, "&#x27;");
      }
    }
    assert forall i :: 0 <= i < |s| ==> s[i] == (if i < |x| then x[i] else y[i - |x|]);
  }

  lemma EscapeCharIsSafe(c: char)
    requires !IsControl(c)
    ensures SafeForHtml(EscapeChar(c))
  {
    var e := EscapeChar(c);
    if c == '&' || c == '<' || c == '>' || c == '"' || c == '\'' {
      assert Occurs(e, 0, e);
    }
  }

  /** Escaping control-free text gives text safe for HTML. */
  lemma {:induction false} EscapedIsSafe(s: string)
    requires NoControl(s)
    ensures SafeForHtml(HtmlEscape(s))
  {
    if s != [] {
      EscapeCharIsSafe(s[0]);
      EscapedIsSafe(s[1..]);
      SafeConcat(EscapeChar(s[0]), HtmlEscape(s[1..]));
    }
  }

  /** An entity that starts inside a slice whose right-hand remainder is
      whitespace ends inside the slice, since its last character, `;`, is not
      whitespace. */
  lemma OccursInSlice(s: string, lo: nat, hi: nat, i: nat, e: string)
    requires lo <= i < hi <= |s| && Occurs(s, i, e)
    requires e != [] && !IsSpace(e[|e| - 1]) && AllSpace(s[hi..])
    ensures Occurs(s[lo..hi], i - lo, e)
  {
    var t := s[lo..hi];
    var j := i - lo;
    forall k | 0 <= k < |e| ensures t[j + k] == e[k] {
      assert t[j + k] == s[i + k];
      assert s[i..i + |e|][k] == s[i + k];
    }
    assert t[j..j + |e|] == e;
  }

  lemma EntityInSlice(s: string, lo: nat, hi: nat, i: nat)
    requires lo <= i < hi <= |s| && EntityAt(s, i) && AllSpace(s[hi..])
    ensures EntityAt(s[lo..hi], i - lo)
  {
    if Occurs(s, i, "&amp;") { OccursInSlice(s, lo, hi, i, "&amp;"); }
    else if Occurs(s, i, "&lt;") { OccursInSlice(s, lo, hi, i, "&lt;"); }
    else if Occurs(s, i, "&gt;") { OccursInSlice(s, lo, hi, i, "&gt;"); }
    else if Occurs(s, i, "&quot;") { OccursInSlice(s, lo, hi, i, "&quot;"); }
    else { OccursInSlice(s, lo, hi, i, "&#x27;"); }
  }

  /** Stripping whitespace keeps text safe for HTML. */
  lemma StripKeepsSafe(s: string)
    requires SafeForHtml(s)
    ensures SafeForHtml(Strip(s))
  {
    var r := Strip(s);
    var lo := LeadingSpace(s);
    var hi := lo + |r|;
    assert r == s[lo..hi];
    assert forall i :: 0 <= i < |r| ==> r[i] == s[lo + i];
    forall i | 0 <= i < |r| && r[i] == '&' ensures EntityAt(r, i) {
      assert s[lo + i] == '&';
      EntityInSlice(s, lo, hi, lo + i);
    }
  }

  /** Escaping leaves whitespace alone. */
  lemma {:induction false} EscapeSpaces(s: string)
    requires AllSpace(s)
    ensures HtmlEscape(s) == s
  {
    if s != [] {
      EscapeSpaces(s[1..]);
      assert s == [s[0]] + s[1..];
    }
  }

  /** The first and last characters of an escaped non-empty text are the
      escaped first and last characters' own. */
  lemma {:induction false} EscapeEdges(s: string)
    requires s != []
    ensures HtmlEscape(s) != []
    ensures HtmlEscape(s)[0] == EscapeChar(s[0])[0]
    ensures var t := HtmlEscape(s); var e := EscapeChar(s[|s| - 1]); t[|t| - 1] == e[|e| - 1]
  {
    var e := EscapeChar(s[0]);
    var rest := HtmlEscape(s[1..]);
    assert HtmlEscape(s) == e + rest;
    assert (e + rest)[0] == e[0];
    if |s| > 1 {
      EscapeEdges(s[1..]);
      assert s[1..][|s| - 2] == s[|s| - 1];
      assert (e + rest)[|e + rest| - 1] == rest[|rest| - 1];
    }
  }

  lemma EscapeCharEdges(c: char)
    requires !IsSpace(c)
    ensures var e := EscapeChar(c); e != [] && !IsSpace(e[0]) && !IsSpace(e[|e| - 1])
  {
  }

  lemma EscapeNoEdgeSpace(m: string)
    requires NoEdgeSpace(m)
    ensures NoEdgeSpace(HtmlEscape(m))
  {
    if m != [] {
      EscapeEdges(m);
      EscapeCharEdges(m[0]);
      EscapeCharEdges(m[|m| - 1]);
    }
  }

  lemma StripCommutesWithEscape(s: string)
    ensures Strip(HtmlEscape(s)) == HtmlEscape(Strip(s))
  {
    var m := Strip(s);
    var lo := LeadingSpace(s);
    var a := s[..lo];
    var c := s[lo + |m|..];
    assert s == a + m + c;
    EscapeConcat(a + m, c);
    EscapeConcat(a, m);
    EscapeSpaces(a);
    EscapeSpaces(c);
    EscapeNoEdgeSpace(m);
    assert HtmlEscape(s) == a + HtmlEscape(m) + c;
    StripOfPadded(a, HtmlEscape(m), c);
  }

  /** Unescaping an escaped character in front of any text gives the
      character back in front of the unescaped text. */
  lemma UnescapeEscapedChar(c: char, rest: string)
    ensures HtmlUnescape(EscapeChar(c) + rest) == [c] + HtmlUnescape(rest)
  {
    var e := EscapeChar(c);
    var t := e + rest;
    assert t[..|e|] == e && t[|e|..] == rest;
    if c == '&' {
      assert StartsWith(t, "&amp;");
    } else if c == '<' {
      assert t[1] == 'l';
      assert StartsWith(t, "&lt;");
    } else if c == '>' {
      assert t[1] == 'g';
      assert StartsWith(t, "&gt;");
    } else if c == '"' {
      assert t[1] == 'q';
      assert StartsWith(t, "&quot;");
    } else if c == '\'' {
      assert t[1] == '#';
      assert StartsWith(t, "&#x27;");
    } else {
      assert t[0] == c;
      assert t[1..] == rest;
    }
  }

  /** Unescaping undoes escaping. */
  lemma {:induction false} EscapeRoundTrip(s: string)
    ensures HtmlUnescape(HtmlEscape(s)) == s
  {
    if s != [] {
      EscapeRoundTrip(s[1..]);
      UnescapeEscapedChar(s[0], HtmlEscape(s[1..]));
      assert s == [s[0]] + s[1..];
    }
  }

  // ---------------------------------------------------------------------
  // validate_email
  // ---------------------------------------------------------------------

  predicate IsAsciiLetter(c: char)
  {
    ('a' <= c <= 'z') || ('A' <= c <= 'Z')
  }

  /** `[a-zA-Z0-9._%+-]` */
  predicate LocalChar(c: char)
  {
    IsAsciiLetter(c) || IsDigit(c) || c == '.' || c == '_' || c == '%' || c == '+' || c == '-'
  }

  /** `[a-zA-Z0-9.-]` */
  predicate DomainChar(c: char)
  {
    IsAsciiLetter(c) || IsDigit(c) || c == '.' || c == '-'
  }

  /** `e` splits as local part `e[..at]`, `@`, domain `e[at+1..dot]`, `.`,
      top-level domain `e[dot+1..]`, each part drawn from its class and at
      least one, one and two characters long. */
  ghost predicate EmailSplitAt(e: string, at: int, dot: int)
  {
    && 0 < at && at + 1 < dot && dot + 2 < |e|
    && e[at] == '@' && e[dot] == '.'
    && (forall i :: 0 <= i < at ==> LocalChar(e[i]))
    && (forall i :: at < i < dot ==> DomainChar(e[i]))
    && (forall i :: dot < i < |e| ==> IsAsciiLetter(e[i]))
  }

  /** `re.match(r'^[a-zA-Z0-9._%+-]+@[a-zA-Z0-9.-]+\.[a-zA-Z]{2,}$', e)` on a
      string without a trailing newline: the language of the pattern. */
  ghost predicate MatchesEmailPattern(e: string)
  {
    exists at: int, dot: int :: EmailSplitAt(e, at, dot)
  }

  function IndexOf(s: string, c: char): (i: nat)
    ensures i <= |s|
    ensures i < |s| ==> s[i] == c
    ensures forall j :: 0 <= j < i ==> s[j] != c
  {
    if s == [] || s[0] == c then 0 else 1 + IndexOf(s[1..], c)
  }

  function LastIndexOf(s: string, c: char): (i: int)
    ensures -1 <= i < |s|
    ensures i >= 0 ==> s[i] == c
    ensures forall j :: i < j < |s| ==> s[j] != c
  {
    if s == [] then -1 else if s[|s| - 1] == c then |s| - 1 else LastIndexOf(s[..|s| - 1], c)
  }

  /** A deterministic matcher for the pattern: the `@` must be the first one
      (the local class has none), and the top-level dot the last dot (the
      letter class has none). */
  function EmailMatches(e: string): (b: bool)
    ensures b <==> MatchesEmailPattern(e)
  {
    var at := IndexOf(e, '@');
    var dot := if at < |e| then at + 1 + LastIndexOf(e[at + 1..], '.') else at;
    var b :=
      && at < |e| && 0 < at && at + 1 < dot && dot + 2 < |e|
      && (forall i :: 0 <= i < at ==> LocalChar(e[i]))
      && (forall i :: at < i < dot ==> DomainChar(e[i]))
      && (forall i :: dot < i < |e| ==> IsAsciiLetter(e[i]));
    assert b ==> EmailSplitAt(e, at, dot);
    assert MatchesEmailPattern(e) ==> b by {
      if MatchesEmailPattern(e) {
        var a, d :| EmailSplitAt(e, a, d);
        SplitAtIsFirstAt(e, a, d);
        SplitDotIsLastDot(e, a, d);
      }
    }
    b
  }

  /** In any split, the `@` is the first one: the local class has none. */
  lemma SplitAtIsFirstAt(e: string, a: int, d: int)
    requires EmailSplitAt(e, a, d)
    ensures IndexOf(e, '@') == a
  {
    assert !LocalChar('@');
  }

  /** In any split, the dot is the last one after the `@`: the letter class
      has none. */
  lemma SplitDotIsLastDot(e: string, a: int, d: int)
    requires EmailSplitAt(e, a, d)
    ensures a + 1 + LastIndexOf(e[a + 1..], '.') == d
  {
    var tail := e[a + 1..];
    var li := LastIndexOf(tail, '.');
    assert tail[d - a - 1] == '.';
    forall j | d - a - 1 < j < |tail| ensures tail[j] != '.' {
      assert tail[j] == e[a + 1 + j];
      assert IsAsciiLetter(e[a + 1 + j]);
    }
  }

  function ValidateEmail(email: string): (r: Result<string, SecurityError>)
    ensures email == [] ==> r == Failure(EmailRequired)
    ensures email != [] ==> (r.Success? <==> MatchesEmailPattern(Strip(Lower(email))))
    ensures r.Success? ==> r.value == Strip(Lower(email))
    ensures email != [] && r.Failure? ==> r.error == InvalidEmailFormat
  {
    if email == [] then Failure(EmailRequired)
    else
      var normalised := Strip(Lower(email));
      if EmailMatches(normalised) then Success(normalised) else Failure(InvalidEmailFormat)
  }

  // ---------------------------------------------------------------------
  // validate_numeric (range part)
  // ---------------------------------------------------------------------

  /** The bound checks of `validate_numeric` on an already-converted number.
      The lower bound is tested first, so when both fail the lower one is
      reported. */
  function ValidateNumeric(num: real, minVal: Option<real>, maxVal: Option<real>): (r: Result<real, SecurityError>)
    ensures r.Success? <==> (minVal.None? || minVal.value <= num) && (maxVal.None? || num <= maxVal.value)
    ensures r.Success? ==> r.value == num
    ensures minVal.Some? && num < minVal.value ==> r == Failure(BelowMinimum(minVal.value))
    ensures (minVal.None? || minVal.value <= num) && maxVal.Some? && num > maxVal.value
            ==> r == Failure(AboveMaximum(maxVal.value))
  {
    if minVal.Some? && num < minVal.value then Failure(BelowMinimum(minVal.value))
    else if maxVal.Some? && num > maxVal.value then Failure(AboveMaximum(maxVal.value))
    else Success(num)
  }

  // ---------------------------------------------------------------------
  // sanitize_filename
  // ---------------------------------------------------------------------

  /** ASCII `\w`. */
  predicate IsWordChar(c: char)
  {
    IsAsciiLetter(c) || IsDigit(c) || c == '_'
  }

  /** `[./\\]`, replaced by `_`. */
  predicate IsPathChar(c: char)
  {
    c == '.' || c == '/' || c == '\\'
  }

  /** `[\w\-_.]`, the characters the second substitution keeps. */
  predicate FilenameChar(c: char)
  {
    IsWordChar(c) || c == '-' || c == '.'
  }

  /** `re.sub(r'[./\\]', '_', s)`: no path character is left, each one
      counts as one more `_`, and every other character stays in place. */
  function ReplacePathChars(s: string): (r: string)
    ensures |r| == |s|
    ensures forall i :: 0 <= i < |r| ==> !IsPathChar(r[i])
    ensures forall i :: 0 <= i < |s| && IsPathChar(s[i]) ==> r[i] == '_'
    ensures forall i :: 0 <= i < |s| && !IsPathChar(s[i]) ==> r[i] == s[i]
    ensures (forall i :: 0 <= i < |s| ==> !IsPathChar(s[i])) ==> r == s
  {
    seq(|s|, i requires 0 <= i < |s| => if IsPathChar(s[i]) then '_' else s[i])
  }

  /** Each path character counts as one more `_`; every other character
      occurs as often as before. */
  lemma {:induction false} ReplacePathCharsCounts(s: string)
    ensures forall c :: !IsPathChar(c) && c != '_' ==> Count(ReplacePathChars(s), c) == Count(s, c)
    ensures Count(ReplacePathChars(s), '_') == Count(s, '_') + Count(s, '.') + Count(s, '/') + Count(s, '\\')
  {
    if s != [] {
      var r := ReplacePathChars(s);
      assert r == [r[0]] + ReplacePathChars(s[1..]);
      assert s == [s[0]] + s[1..];
      ReplacePathCharsCounts(s[1..]);
    }
  }

  /** `re.sub(r'[^\w\-_.]', '', s)`: each filename character stays as often
      as it occurred, every other character goes. */

  function KeepFilenameChars(s: string): (r: string)
    ensures |r| <= |s|
    ensures forall i :: 0 <= i < |r| ==> FilenameChar(r[i]) && r[i] in s
    ensures r == [] <==> forall i :: 0 <= i < |s| ==> !FilenameChar(s[i])
    ensures (forall i :: 0 <= i < |s| ==> FilenameChar(s[i])) ==> r == s
  {
    if s == [] then []
    else
      var rest := KeepFilenameChars(s[1..]);
      assert s == [s[0]] + s[1..];
      assert forall i :: 1 <= i < |s| ==> s[i] == s[1..][i - 1];
      if FilenameChar(s[0]) then [s[0]] + rest else rest
  }

  /** Each filename character occurs as often as before, every other
      character not at all. */
  lemma {:induction false} KeepFilenameCharsCounts(s: string)
    ensures forall c :: Count(KeepFilenameChars(s), c) == if FilenameChar(c) then Count(s, c) else 0
  {
    if s != [] {
      var r := KeepFilenameChars(s);
      KeepFilenameCharsCounts(s[1..]);
      if FilenameChar(s[0]) {
        assert r[1..] == KeepFilenameChars(s[1..]);
      }
    }
  }

  lemma {:induction false} KeepFilenameCharsConcat(a: string, b: string)
    ensures KeepFilenameChars(a + b) == KeepFilenameChars(a) + KeepFilenameChars(b)
  {
    if a == [] {
      assert a + b == b;
    } else {
      assert (a + b)[1..] == a[1..] + b;
      KeepFilenameCharsConcat(a[1..], b);
    }
  }

  /** A name character that survives: a word character, `-`, or a path
      character (which becomes `_`). */
  predicate Survives(c: char)
  {
    IsWordChar(c) || c == '-' || IsPathChar(c)
  }

  function SanitizeFilename(name: string): (r: Result<string, SecurityError>)
    ensures name == [] ==> r == Failure(FilenameRequired)
    ensures name != [] ==> (r.Success? <==> exists i :: 0 <= i < |name| && Survives(name[i]))
    ensures name != [] && r.Failure? ==> r.error == InvalidFilename
    ensures r.Success? ==> r.value != [] && |r.value| <= |name|
    ensures r.Success? ==> forall i :: 0 <= i < |r.value| ==> IsWordChar(r.value[i]) || r.value[i] == '-'
    ensures r.Success? ==> forall c :: (IsWordChar(c) || c == '-') && c != '_' ==> Count(r.value, c) == Count(name, c)
    ensures r.Success? ==> Count(r.value, '_') == Count(name, '_') + Count(name, '.') + Count(name, '/') + Count(name, '\\')
  {
    if name == [] then Failure(FilenameRequired)
    else
      var replaced := ReplacePathChars(name);
      var kept := KeepFilenameChars(replaced);
      ReplacePathCharsCounts(name);
      KeepFilenameCharsCounts(replaced);
      assert forall i :: 0 <= i < |name| ==> (FilenameChar(replaced[i]) <==> Survives(name[i]));
      if kept == [] then Failure(InvalidFilename) else Success(kept)
  }

  /** A sanitised name is a fixed point: sanitising twice equals once. */
  lemma SanitizeFilenameIdempotent(name: string)
    requires SanitizeFilename(name).Success?
    ensures SanitizeFilename(SanitizeFilename(name).value) == SanitizeFilename(name)
  {
    var f := SanitizeFilename(name).value;
    var replaced := ReplacePathChars(f);
    assert replaced == f;
    assert KeepFilenameChars(f) == f;
  }

  /** The traversal example: every `.` and `/` becomes `_`. */
  lemma TraversalNeutralised()
    ensures SanitizeFilename("../../etc/passwd") == Success("______etc_passwd")
  {
    TraversalReplaced();
    TraversalKept();
  }

  lemma TraversalReplaced()
    ensures ReplacePathChars("../../etc/passwd") == "______etc_passwd"
  {
    var n := "../../etc/passwd";
    var t := "______etc_passwd";
    var r := ReplacePathChars(n);
    assert forall i :: 0 <= i < |n| ==> r[i] == t[i];
  }

  lemma TraversalKept()
    ensures KeepFilenameChars("______etc_passwd") == "______etc_passwd"
  {
    var t := "______etc_passwd";
    assert forall i :: 0 <= i < |t| ==> FilenameChar(t[i]);
  }

  // ---------------------------------------------------------------------
  // sanitize_input
  // ---------------------------------------------------------------------

  /** A JSON-style request value: a Python `dict` is the ordered list of its
      items, a `list` the list of its elements. */
  datatype Value =
    | Null
    | Bool(b: bool)
    | Number(x: real)
    | Str(s: string)
    | Object(fields: seq<(string, Value)>)
    | Array(items: seq<Value>)

  /** Every string inside `v` is within `sanitize_string`'s default limit. */
  ghost predicate StringsFit(v: Value)
  {
    match v
    case Str(s) => |s| <= DefaultMaxLength
    case Object(fs) => forall i :: 0 <= i < |fs| ==> (assert fs[i].1 < fs[i]; StringsFit(fs[i].1))
    case Array(xs) => forall i :: 0 <= i < |xs| ==> StringsFit(xs[i])
    case _ => true
  }

  /** `w` is `v` with every string replaced by its sanitised form: the same
      shape, the same dict keys in the same order, the same list lengths,
      every other value unchanged. */
  ghost predicate SanitizedFrom(v: Value, w: Value)
  {
    match v
    case Str(s) => w.Str? && SanitizeString(s, DefaultMaxLength) == Success(w.s)
    case Object(fs) =>
      && w.Object? && |w.fields| == |fs|
      && forall i :: 0 <= i < |fs| ==>
           w.fields[i].0 == fs[i].0 && (assert fs[i].1 < fs[i]; SanitizedFrom(fs[i].1, w.fields[i].1))
    case Array(xs) =>
      && w.Array? && |w.items| == |xs|
      && forall i :: 0 <= i < |xs| ==> SanitizedFrom(xs[i], w.items[i])
    case _ => w == v
  }

  /** `sanitize_input`: fails, as `sanitize_string` does, as soon as one string
      is too long; otherwise sanitises every string and keeps the shape. */
  function SanitizeInput(v: Value): (r: Result<Value, SecurityError>)
    ensures r.Success? <==> StringsFit(v)
    ensures r.Failure? ==> r.error == InputTooLong(DefaultMaxLength)
    ensures r.Success? ==> SanitizedFrom(v, r.value)
    decreases v, 1
  {
    match v
    case Str(s) =>
      (match SanitizeString(s, DefaultMaxLength)
       case Success(t) => Success(Str(t))
       case Failure(e) => Failure(e))
    case Object(fs) =>
      (match SanitizeFields(fs)
       case Success(gs) => Success(Object(gs))
       case Failure(e) => Failure(e))
    case Array(xs) =>
      (match SanitizeItems(xs)
       case Success(ys) => Success(Array(ys))
       case Failure(e) => Failure(e))
    case _ => Success(v)
  }

  /** The dict comprehension `{k: sanitize_input(v) for k, v in d.items()}`. */
  function SanitizeFields(fs: seq<(string, Value)>): (r: Result<seq<(string, Value)>, SecurityError>)
    ensures r.Success? <==> forall i :: 0 <= i < |fs| ==> StringsFit(fs[i].1)
    ensures r.Failure? ==> r.error == InputTooLong(DefaultMaxLength)
    ensures r.Success? ==> |r.value| == |fs|
    ensures r.Success? ==> forall i :: 0 <= i < |fs| ==>
              r.value[i].0 == fs[i].0 && SanitizedFrom(fs[i].1, r.value[i].1)
    decreases fs, 0
  {
    if fs == [] then Success([])
    else
      assert fs[0].1 < fs[0];
      match SanitizeInput(fs[0].1)
      case Failure(e) => Failure(e)
      case Success(w) =>
        match SanitizeFields(fs[1..])
        case Failure(e) =>
          assert !StringsFit(fs[1..][IndexOfUnfit(fs[1..])].1);
          Failure(e)
        case Success(rest) =>
          assert forall i :: 1 <= i < |fs| ==> fs[i] == fs[1..][i - 1];
          Success([(fs[0].0, w)] + rest)
  }

  /** An index of a field whose value does not fit, given there is one. */
  ghost function IndexOfUnfit(fs: seq<(string, Value)>): (k: nat)
    requires exists i :: 0 <= i < |fs| && !StringsFit(fs[i].1)
    ensures k < |fs| && !StringsFit(fs[k].1)
  {
    var k :| 0 <= k < |fs| && !StringsFit(fs[k].1); k
  }

  /** The list comprehension `[sanitize_input(item) for item in l]`. */
  function SanitizeItems(xs: seq<Value>): (r: Result<seq<Value>, SecurityError>)
    ensures r.Success? <==> forall i :: 0 <= i < |xs| ==> StringsFit(xs[i])
    ensures r.Failure? ==> r.error == InputTooLong(DefaultMaxLength)
    ensures r.Success? ==> |r.value| == |xs|
    ensures r.Success? ==> forall i :: 0 <= i < |xs| ==> SanitizedFrom(xs[i], r.value[i])
    decreases xs, 0
  {
    if xs == [] then Success([])
    else
      match SanitizeInput(xs[0])
      case Failure(e) => Failure(e)
      case Success(w) =>
        match SanitizeItems(xs[1..])
        case Failure(e) => Failure(e)
        case Success(rest) =>
          assert forall i :: 1 <= i < |xs| ==> xs[i] == xs[1..][i - 1];
          Success([w] + rest)
  }

  // ---------------------------------------------------------------------
  // require_validation: the required-field check
  // ---------------------------------------------------------------------

  /** What the decorated route does: run its body, answer 400 with the
      reason, or answer 500 (an exception other than `SecurityError`). */
  datatype Gate = Proceed | Rejected(error: SecurityError) | InternalError

  /** Python truthiness of a JSON value. */
  predicate Truthy(v: Value)
  {
    match v
    case Null => false
    case Bool(b) => b
    case Number(x) => x != 0.0
    case Str(s) => s != []
    case Object(fs) => fs != []
    case Array(xs) => xs != []
  }

  /** The request body as `request.get_json()` sees it: not declared as
      JSON, declared as JSON but not parseable, or a parsed JSON value (a
      `null` body parses to `Null`, which `get_json()` returns as `None`).
      For the first two `get_json()` raises an HTTP exception. */
  datatype Body = NotJson | Malformed | Json(value: Value)

  /** `request.get_json() or {}` on a parsed body: `None` (a JSON `null`)
      and the other falsy values become the empty dict. */
  function RequestData(json: Value): Value
  {
    if Truthy(json) then json else Object([])
  }

  /** `s` contains `f` as a contiguous substring (Python `f in s`). */
  predicate HasSubstring(s: string, f: string)
  {
    StartsWith(s, f) || (s != [] && HasSubstring(s[1..], f))
  }

  /** `field in data`: dict key membership, list element equality, substring
      for a string; `None` for a number or a bool, where Python raises
      `TypeError`. */
  function Membership(data: Value, field: string): Option<bool>
  {
    match data
    case Object(fs) => Some(exists i :: 0 <= i < |fs| && fs[i].0 == field)
    case Array(xs) => Some(Str(field) in xs)
    case Str(s) => Some(HasSubstring(s, field))
    case Null => Some(false)
    case _ => None
  }

  /** The check `require_validation(required_fields)` makes before the route
      body: every field in order must be in the request data; the first one
      missing is reported. A body `get_json()` refuses raises inside the
      decorator's `try` and is answered 500. */
  method CheckRequiredFields(body: Body, required: seq<string>) returns (g: Gate)
    ensures required == [] ==> g == Proceed
    ensures g == Proceed <==>
              required == [] ||
              (body.Json? && forall k :: 0 <= k < |required| ==> Membership(RequestData(body.value), required[k]) == Some(true))
    ensures g == InternalError <==>
              required != [] && (!body.Json? || Membership(RequestData(body.value), required[0]).None?)
    ensures g.Rejected? ==>
              body.Json? &&
              exists k :: 0 <= k < |required| && g.error == MissingRequiredField(required[k])
                          && Membership(RequestData(body.value), required[k]) == Some(false)
                          && forall j :: 0 <= j < k ==> Membership(RequestData(body.value), required[j]) == Some(true)
  {
    if required == [] {
      return Proceed;
    }
    if !body.Json? {
      return InternalError;
    }
    var data := RequestData(body.value);
    var i := 0;
    while i < |required|
      invariant 0 <= i <= |required|
      invariant forall j :: 0 <= j < i ==> Membership(data, required[j]) == Some(true)
    {
      var present := Membership(data, required[i]);
      if present.None? {
        assert forall f :: Membership(data, f).None?;
        return InternalError;
      }
      if !present.value {
        return Rejected(MissingRequiredField(required[i]));
      }
      i := i + 1;
    }
    return Proceed;
  }
}
