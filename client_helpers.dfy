/** The pure string helpers of the browser script: `String.prototype.trim` and
    `split` as the script uses them, `escapeHtml`, the form checks that
    `register` and `login` run before posting, and `getCurrentUser`, which
    reads the `username` cookie out of `document.cookie`. */
module ClientHelpers {
  import opened Wrappers

  // ---------------------------------------------------------------------------
  // String.prototype.trim
  // ---------------------------------------------------------------------------

  /** The characters `trim` removes: ECMAScript WhiteSpace (tab, vertical tab,
      form feed, space, no-break space, byte order mark and every Unicode space
      separator) and LineTerminator (line feed, carriage return, U+2028, U+2029). */
  predicate IsJsSpace(c: char) {
    || c == '\t' || c == '\n' || c == '\U{000B}' || c == '\U{000C}' || c == '\r'
    || c == ' ' || c == '\U{00A0}' || c == '\U{1680}'
    || ('\U{2000}' <= c <= '\U{200A}')
    || c == '\U{2028}' || c == '\U{2029}' || c == '\U{202F}' || c == '\U{205F}'
    || c == '\U{3000}' || c == '\U{FEFF}'
  }

  /** Every character of `s` is one that `trim` removes. */
  predicate AllSpace(s: string) {
    forall i :: 0 <= i < |s| ==> IsJsSpace(s[i])
  }

  /** Drops the leading spaces: the result is the suffix of `s` that starts at
      its first non-space character. */
  function TrimStart(s: string): (r: string)
    ensures |r| <= |s| && r == s[|s| - |r|..]
    ensures r == [] || !IsJsSpace(r[0])
    ensures forall i :: 0 <= i < |s| - |r| ==> IsJsSpace(s[i])
  {
    if s != [] && IsJsSpace(s[0]) then TrimStart(s[1..]) else s
  }

  /** Drops the trailing spaces: the result is the prefix of `s` that ends at
      its last non-space character. */
  function TrimEnd(s: string): (r: string)
    ensures |r| <= |s| && r == s[..|r|]
    ensures r == [] || !IsJsSpace(r[|r| - 1])
    ensures forall i :: |r| <= i < |s| ==> IsJsSpace(s[i])
  {
    if s != [] && IsJsSpace(s[|s| - 1]) then TrimEnd(s[..|s| - 1]) else s
  }

  /** `s.trim()`: no space is left at either end, and nothing but spaces is
      removed, so the result is empty exactly when `s` is all spaces. */
  function Trim(s: string): (r: string)
    ensures r == [] || (!IsJsSpace(r[0]) && !IsJsSpace(r[|r| - 1]))
    ensures r == [] <==> AllSpace(s)
    ensures exists i, j :: 0 <= i <= j <= |s| && r == s[i..j] && AllSpace(s[..i]) && AllSpace(s[j..])
  {
    var front := TrimStart(s);
    var r := TrimEnd(front);
    assert r == [] ==> front == [];
    assert AllSpace(s) ==> front == [];
    TrimCut(s, front, r);
    r
  }

  /** The two halves of `trim` cut `s` at `i` and `j`. */
  lemma TrimCut(s: string, front: string, r: string)
    requires front == TrimStart(s) && r == TrimEnd(front)
    ensures exists i, j :: 0 <= i <= j <= |s| && r == s[i..j] && AllSpace(s[..i]) && AllSpace(s[j..])
  {
    SpaceCut(s, |s| - |front|, front, r);
  }

  /** Cutting `s` after a space prefix of length `i` and then after `r`,
      which is followed only by spaces. */
  lemma SpaceCut(s: string, i: nat, front: string, r: string)
    requires i <= |s| && front == s[i..] && |r| <= |front| && r == front[..|r|]
    requires forall x :: 0 <= x < i ==> IsJsSpace(s[x])
    requires forall x :: |r| <= x < |front| ==> IsJsSpace(front[x])
    ensures exists i, j :: 0 <= i <= j <= |s| && r == s[i..j] && AllSpace(s[..i]) && AllSpace(s[j..])
  {
    var j := i + |r|;
    assert r == s[i..j];
    assert AllSpace(s[..i]);
    assert AllSpace(s[j..]) by {
      forall k | 0 <= k < |s| - j ensures IsJsSpace(s[j..][k]) {
        assert s[j..][k] == front[|r| + k];
      }
    }
  }

  // ---------------------------------------------------------------------------
  // String.prototype.split with a one-character separator
  // ---------------------------------------------------------------------------

  /** `s.split(sep)`: the pieces between the separators, left to right; an
      empty string splits into one empty piece, and no piece holds `sep`. */
  function Split(s: string, sep: char): (r: seq<string>)
    ensures |r| >= 1
    ensures forall i :: 0 <= i < |r| ==> sep !in r[i]
  {
    if s == [] then [""]
    else
      var rest := Split(s[1..], sep);
      if s[0] == sep then [""] + rest else [[s[0]] + rest[0]] + rest[1..]
  }

  /** `parts.join(sep)`, the inverse of `Split`. */
  function Join(parts: seq<string>, sep: char): string {
    if parts == [] then ""
    else if |parts| == 1 then parts[0]
    else parts[0] + [sep] + Join(parts[1..], sep)
  }

  /** Splitting and joining again gives back the string. */
  lemma {:induction false} JoinSplit(s: string, sep: char)
    ensures Join(Split(s, sep), sep) == s
  {
    if s != [] {
      JoinSplit(s[1..], sep);
      var rest := Split(s[1..], sep);
      if s[0] == sep {
        assert Split(s, sep) == [""] + rest;
        assert Join([""] + rest, sep) == "" + [sep] + Join(rest, sep);
      } else {
        var r := Split(s, sep);
        assert r == [[s[0]] + rest[0]] + rest[1..];
        if |rest| == 1 {
          assert rest == [rest[0]];
        } else {
          assert Join(rest, sep) == rest[0] + [sep] + Join(rest[1..], sep);
          assert r[1..] == rest[1..];
        }
      }
    }
  }

  /** A piece without the separator in front of the rest splits off whole. */
  lemma {:induction false} SplitPiece(a: string, sep: char, t: string)
    requires sep !in a
    ensures Split(a + [sep] + t, sep) == [a] + Split(t, sep)
  {
    if a == [] {
      assert a + [sep] + t == [sep] + t;
      assert ([sep] + t)[1..] == t;
    } else {
      SplitPiece(a[1..], sep, t);
      assert (a + [sep] + t)[1..] == a[1..] + [sep] + t;
      assert [a[0]] + a[1..] == a;
    }
  }

  /** A string without the separator is a single piece. */
  lemma {:induction false} SplitWhole(a: string, sep: char)
    requires sep !in a
    ensures Split(a, sep) == [a]
  {
    if a != [] {
      SplitWhole(a[1..], sep);
      assert [a[0]] + a[1..] == a;
    }
  }

  /** Joining pieces that do not contain the separator and splitting again
      gives back the pieces. */
  lemma {:induction false} SplitJoin(parts: seq<string>, sep: char)
    requires |parts| >= 1
    requires forall i :: 0 <= i < |parts| ==> sep !in parts[i]
    ensures Split(Join(parts, sep), sep) == parts
  {
    if |parts| == 1 {
      SplitWhole(parts[0], sep);
    } else {
      SplitJoin(parts[1..], sep);
      SplitPiece(parts[0], sep, Join(parts[1..], sep));
      assert [parts[0]] + parts[1..] == parts;
    }
  }

  // ---------------------------------------------------------------------------
  // escapeHtml
  // ---------------------------------------------------------------------------

  /** `s.replace(/c/g, repl)`: every occurrence of `c` replaced by `repl`. */
  function ReplaceAll(s: string, c: char, repl: string): (r: string)
    ensures c !in repl ==> c !in r
    ensures c !in s ==> r == s
  {
    if s == [] then [] else (if s[0] == c then repl else [s[0]]) + ReplaceAll(s[1..], c, repl)
  }

  lemma AppendAssoc<T>(a: seq<T>, b: seq<T>, c: seq<T>)
    ensures a + (b + c) == (a + b) + c
  {
  }

  /** One unfolding of a global `replace` at the front of a string. */
  lemma ReplaceAllCons(x: char, t: string, c: char, repl: string)
    ensures ReplaceAll([x] + t, c, repl) == (if x == c then repl else [x]) + ReplaceAll(t, c, repl)
  {
    assert ([x] + t)[0] == x && ([x] + t)[1..] == t;
  }

  lemma {:induction false} ReplaceAllConcat(a: string, b: string, c: char, repl: string)
    ensures ReplaceAll(a + b, c, repl) == ReplaceAll(a, c, repl) + ReplaceAll(b, c, repl)
  {
    if a == [] {
      assert a + b == b;
    } else {
      var t := a[1..];
      assert a == [a[0]] + t && a + b == [a[0]] + (t + b);
      ReplaceAllConcat(t, b, c, repl);
      ReplaceAllCons(a[0], t + b, c, repl);
      ReplaceAllCons(a[0], t, c, repl);
      var head, x, y := (if a[0] == c then repl else [a[0]]), ReplaceAll(t, c, repl), ReplaceAll(b, c, repl);
      AppendAssoc(head, x, y);
    }
  }

  /** The five replacements of `escapeHtml`, in the order the script applies them. */
  function ReplaceChain(s: string): string {
    ReplaceAll(ReplaceAll(ReplaceAll(ReplaceAll(ReplaceAll(
      s, '&', "&amp;"), '<', "&lt;"), '>', "&gt;"), '"', "&quot;"), '\'', "&#039;")
  }

  /** `escapeHtml(unsafe)`: the empty string for null, undefined or an empty
      string, otherwise the chain of replacements. */
  function EscapeHtml(unsafe: Option<string>): string {
    if unsafe.None? || unsafe.value == "" then "" else ReplaceChain(unsafe.value)
  }

  /** The entity each character is written as, on its own. */
  function EscapeChar(c: char): (r: string)
    ensures |r| >= 1
  {
    match c
    case '&' => "&amp;"
    case '<' => "&lt;"
    case '>' => "&gt;"
    case '"' => "&quot;"
    case '\'' => "&#039;"
    case _ => [c]
  }

  /** Characters that may not appear raw in an escaped string. */
  predicate IsMarkup(c: char) {
    c == '<' || c == '>' || c == '"' || c == '\''
  }

  /** Escaping character by character: no raw `<`, `>`, `"` or `'` survives. */
  function EscapeEach(s: string): (r: string)
    ensures forall i :: 0 <= i < |r| ==> !IsMarkup(r[i])
  {
    if s == [] then [] else EscapeChar(s[0]) + EscapeEach(s[1..])
  }

  /** `t` begins with one of the five entities `escapeHtml` writes. */
  predicate StartsEntity(t: string) {
    "&amp;" <= t || "&lt;" <= t || "&gt;" <= t || "&quot;" <= t || "&#039;" <= t
  }

  /** An escaped character holds `&` only at its start, and there it begins
      an entity. */
  lemma EscapeCharAmpersand(c: char)
    ensures forall k :: 0 < k < |EscapeChar(c)| ==> EscapeChar(c)[k] != '&'
    ensures EscapeChar(c)[0] == '&' ==> StartsEntity(EscapeChar(c))
  {
  }

  lemma PrefixOfPrefix(x: string, y: string, z: string)
    requires x <= y && y <= z
    ensures x <= z
  {
    assert z[..|y|] == y;
    assert z[..|x|] == y[..|x|];
  }

  /** Every `&` in the per-character escape begins an entity: no raw `&`
      survives, so the output decodes unambiguously. */
  lemma {:induction false} AmpersandsStartEntities(s: string)
    ensures forall k :: 0 <= k < |EscapeEach(s)| && EscapeEach(s)[k] == '&' ==> StartsEntity(EscapeEach(s)[k..])
  {
    if s != [] {
      var e, rest := EscapeChar(s[0]), EscapeEach(s[1..]);
      var r := EscapeEach(s);
      assert r == e + rest;
      EscapeCharAmpersand(s[0]);
      AmpersandsStartEntities(s[1..]);
      forall k | 0 <= k < |r| && r[k] == '&' ensures StartsEntity(r[k..]) {
        if k < |e| {
          assert k == 0 && e <= r[k..];
          StartsEntityOfPrefix(e, r);
        } else {
          assert r[k..] == rest[k - |e|..];
          assert rest[k - |e|] == '&';
        }
      }
    }
  }

  lemma StartsEntityOfPrefix(e: string, r: string)
    requires StartsEntity(e) && e <= r
    ensures StartsEntity(r)
  {
    if "&amp;" <= e { PrefixOfPrefix("&amp;", e, r); }
    else if "&lt;" <= e { PrefixOfPrefix("&lt;", e, r); }
    else if "&gt;" <= e { PrefixOfPrefix("&gt;", e, r); }
    else if "&quot;" <= e { PrefixOfPrefix("&quot;", e, r); }
    else { PrefixOfPrefix("&#039;", e, r); }
  }

  /** A replacement on a single character. */
  lemma ReplaceOne(x: char, c: char, repl: string)
    ensures ReplaceAll([x], c, repl) == if x == c then repl else [x]
  {
    assert [x][1..] == [];
  }

  /** The entities themselves hold no character that a later step of the
      chain replaces. */
  lemma EntitiesAreStable()
    ensures '<' !in "&amp;" && '>' !in "&amp;" && '"' !in "&amp;" && '\'' !in "&amp;"
    ensures '>' !in "&lt;" && '"' !in "&lt;" && '\'' !in "&lt;"
    ensures '"' !in "&gt;" && '\'' !in "&gt;"
    ensures '\'' !in "&quot;"
  {
  }

  lemma ChainOfChar(c: char)
    ensures ReplaceChain([c]) == EscapeChar(c)
  {
    var s1 := ReplaceAll([c], '&', "&amp;");
    var s2 := ReplaceAll(s1, '<', "&lt;");
    var s3 := ReplaceAll(s2, '>', "&gt;");
    var s4 := ReplaceAll(s3, '"', "&quot;");
    var s5 := ReplaceAll(s4, '\'', "&#039;");
    assert ReplaceChain([c]) == s5;
    EntitiesAreStable();
    ReplaceOne(c, '&', "&amp;");
    if c != '&' {
      ReplaceOne(c, '<', "&lt;");
      if c != '<' {
        ReplaceOne(c, '>', "&gt;");
        if c != '>' {
          ReplaceOne(c, '"', "&quot;");
          if c != '"' {
            ReplaceOne(c, '\'', "&#039;");
          }
        }
      }
    }
  }

  lemma {:induction false} ChainIsPerCharacter(s: string)
    ensures ReplaceChain(s) == EscapeEach(s)
  {
    if s != [] {
      var a, b := [s[0]], s[1..];
      assert s == a + b;
      var s1 := ReplaceAll(a, '&', "&amp;");
      var t1 := ReplaceAll(b, '&', "&amp;");
      ReplaceAllConcat(a, b, '&', "&amp;");
      var s2 := ReplaceAll(s1, '<', "&lt;");
      var t2 := ReplaceAll(t1, '<', "&lt;");
      ReplaceAllConcat(s1, t1, '<', "&lt;");
      var s3 := ReplaceAll(s2, '>', "&gt;");
      var t3 := ReplaceAll(t2, '>', "&gt;");
      ReplaceAllConcat(s2, t2, '>', "&gt;");
      var s4 := ReplaceAll(s3, '"', "&quot;");
      var t4 := ReplaceAll(t3, '"', "&quot;");
      ReplaceAllConcat(s3, t3, '"', "&quot;");
      ReplaceAllConcat(s4, t4, '\'', "&#039;");
      assert ReplaceChain(s) == ReplaceChain(a) + ReplaceChain(b);
      ChainOfChar(s[0]);
      ChainIsPerCharacter(b);
    }
  }

  /** Because `&` is replaced first, the chain of `escapeHtml` is the same as
      escaping each character on its own; so its output holds no raw markup
      character, and the empty input gives the empty output. */
  lemma EscapeHtmlIsPerCharacter(unsafe: Option<string>)
    ensures EscapeHtml(unsafe) == if unsafe.None? then "" else EscapeEach(unsafe.value)
    ensures forall i :: 0 <= i < |EscapeHtml(unsafe)| ==> !IsMarkup(EscapeHtml(unsafe)[i])
  {
    if unsafe.Some? {
      ChainIsPerCharacter(unsafe.value);
    }
  }

  /** Had `&` been replaced last, the entity written for `<` would itself be
      escaped again. */
  lemma AmpersandLastWouldDoubleEscape()
    ensures ReplaceAll(ReplaceAll("<", '<', "&lt;"), '&', "&amp;") == "&amp;lt;"
  {
    assert ReplaceAll("<", '<', "&lt;") == "&lt;";
    ReplaceAllConcat("&", "lt;", '&', "&amp;");
    assert "&lt;" == "&" + "lt;";
    assert ReplaceAll("&", '&', "&amp;") == "&amp;";
  }

  /** Reads the five entities back as the characters they stand for. */
  function DecodeEntities(s: string): string {
    if s == [] then []
    else if s[0] == '&' && |s| >= 5 && s[..5] == "&amp;" then "&" + DecodeEntities(s[5..])
    else if s[0] == '&' && |s| >= 4 && s[..4] == "&lt;" then "<" + DecodeEntities(s[4..])
    else if s[0] == '&' && |s| >= 4 && s[..4] == "&gt;" then ">" + DecodeEntities(s[4..])
    else if s[0] == '&' && |s| >= 6 && s[..6] == "&quot;" then "\"" + DecodeEntities(s[6..])
    else if s[0] == '&' && |s| >= 6 && s[..6] == "&#039;" then "'" + DecodeEntities(s[6..])
    else [s[0]] + DecodeEntities(s[1..])
  }

  lemma DecodeEscapedChar(c: char, t: string)
    ensures DecodeEntities(EscapeChar(c) + t) == [c] + DecodeEntities(t)
  {
    var s := EscapeChar(c) + t;
    var e := EscapeChar(c);
    assert s[..|e|] == e && s[|e|..] == t;
    if c == '&' {
    } else if c == '<' {
      assert s[1] == 'l';
    } else if c == '>' {
      assert s[1] == 'g';
    } else if c == '"' {
      assert s[1] == 'q';
    } else if c == '\'' {
      assert s[1] == '#';
    } else {
      assert s[0] == c;
    }
  }

  /** Escaping loses nothing: decoding the entities gives back the input. */
  lemma {:induction false} DecodeEscape(s: string)
    ensures DecodeEntities(EscapeHtml(Some(s))) == s
  {
    EscapeHtmlIsPerCharacter(Some(s));
    DecodeEscapeEach(s);
  }

  lemma {:induction false} DecodeEscapeEach(s: string)
    ensures DecodeEntities(EscapeEach(s)) == s
  {
    if s != [] {
      DecodeEscapedChar(s[0], EscapeEach(s[1..]));
      DecodeEscapeEach(s[1..]);
      assert [s[0]] + s[1..] == s;
    }
  }

  /** Two different messages are never rendered as the same escaped text. */
  lemma EscapeHtmlInjective(a: string, b: string)
    requires EscapeHtml(Some(a)) == EscapeHtml(Some(b))
    ensures a == b
  {
    DecodeEscape(a);
    DecodeEscape(b);
  }

  // ---------------------------------------------------------------------------
  // The password rule of register:
  //   /^(?=.*[a-z])(?=.*[A-Z])(?=.*\d)(?=.*[@$!%*?&])[A-Za-z\d@$!%*?&]{8,}$/
  // ---------------------------------------------------------------------------

  /** The four character classes the lookaheads ask for. */
  datatype CharClass = Lower | Upper | Digit | Symbol

  predicate InClass(c: char, k: CharClass) {
    match k
    case Lower => 'a' <= c <= 'z'
    case Upper => 'A' <= c <= 'Z'
    case Digit => '0' <= c <= '9'
    case Symbol => c == '@' || c == '$' || c == '!' || c == '%' || c == '*' || c == '?' || c == '&'
  }

  /** `[A-Za-z\d@$!%*?&]`: the only characters the body of the pattern accepts. */
  predicate InPasswordAlphabet(c: char) {
    InClass(c, Lower) || InClass(c, Upper) || InClass(c, Digit) || InClass(c, Symbol)
  }

  /** The characters `.` does not match. */
  predicate IsLineTerminator(c: char) {
    c == '\n' || c == '\r' || c == '\U{2028}' || c == '\U{2029}'
  }

  /** `(?=.*[k])` at the start of the input: some character of class `k` can be
      reached from the start without crossing a line terminator. */
  predicate LookaheadFinds(s: string, k: CharClass) {
    exists i :: 0 <= i < |s| && InClass(s[i], k) && forall j :: 0 <= j < i ==> !IsLineTerminator(s[j])
  }

  /** `passwordRegex.test(s)`: the four lookaheads succeed and the whole input
      is at least eight characters of the alphabet. */
  predicate PasswordRegexTest(s: string) {
    && LookaheadFinds(s, Lower) && LookaheadFinds(s, Upper)
    && LookaheadFinds(s, Digit) && LookaheadFinds(s, Symbol)
    && |s| >= 8
    && forall i :: 0 <= i < |s| ==> InPasswordAlphabet(s[i])
  }

  predicate Contains(s: string, k: CharClass) {
    exists i :: 0 <= i < |s| && InClass(s[i], k)
  }

  /** The policy in words: at least eight characters, all of them letters,
      digits or one of @$!%*?&, with at least one lowercase letter, one
      uppercase letter, one digit and one of those symbols. */
  predicate StrongPassword(s: string) {
    && |s| >= 8
    && (forall i :: 0 <= i < |s| ==> InPasswordAlphabet(s[i]))
    && Contains(s, Lower) && Contains(s, Upper) && Contains(s, Digit) && Contains(s, Symbol)
  }

  lemma LookaheadOverAlphabet(s: string, k: CharClass)
    requires forall i :: 0 <= i < |s| ==> InPasswordAlphabet(s[i])
    ensures LookaheadFinds(s, k) <==> Contains(s, k)
  {
    if Contains(s, k) {
      var i :| 0 <= i < |s| && InClass(s[i], k);
      assert forall j :: 0 <= j < i ==> !IsLineTerminator(s[j]) by {
        forall j | 0 <= j < i ensures !IsLineTerminator(s[j]) {
          assert InPasswordAlphabet(s[j]);
        }
      }
    }
  }

  /** The regular expression accepts exactly the passwords of the stated policy. */
  lemma PasswordRegexIsPolicy(s: string)
    ensures PasswordRegexTest(s) <==> StrongPassword(s)
  {
    if forall i :: 0 <= i < |s| ==> InPasswordAlphabet(s[i]) {
      LookaheadOverAlphabet(s, Lower);
      LookaheadOverAlphabet(s, Upper);
      LookaheadOverAlphabet(s, Digit);
      LookaheadOverAlphabet(s, Symbol);
    }
  }

  /** A password with any character outside the alphabet is refused, whatever
      else it holds: a `#`, a `-` or an inner space is not a "special character". */
  lemma ForeignCharacterRefused(s: string, i: nat)
    requires i < |s| && !InPasswordAlphabet(s[i])
    ensures !PasswordRegexTest(s)
  {
  }

  // ---------------------------------------------------------------------------
  // The checks register and login make before posting
  // ---------------------------------------------------------------------------

  /** What `register` does with the three input values. */
  datatype RegisterForm =
    | MissingFields                     // "Please enter username, password, and email"
    | WeakPassword                      // "Password must be at least 8 characters and ..."
    | PostRegister(username: string, password: string, email: string)

  /** Trims the three inputs, refuses an empty one, then the password rule;
      otherwise posts the trimmed values to /register. */
  function CheckRegisterForm(username: string, password: string, email: string): (r: RegisterForm)
    ensures r.MissingFields? <==> AllSpace(username) || AllSpace(password) || AllSpace(email)
    ensures r.PostRegister? <==>
      !AllSpace(username) && !AllSpace(email) && StrongPassword(Trim(password))
    ensures r.PostRegister? ==> r == PostRegister(Trim(username), Trim(password), Trim(email))
  {
    var u, p, e := Trim(username), Trim(password), Trim(email);
    PasswordRegexIsPolicy(p);
    if u == "" || p == "" || e == "" then MissingFields
    else if !PasswordRegexTest(p) then WeakPassword
    else PostRegister(u, p, e)
  }

  /** What `login` does with the two input values. */
  datatype LoginForm =
    | MissingCredentials                // "Please enter username and password"
    | PostLogin(username: string, password: string)

  function CheckLoginForm(username: string, password: string): (r: LoginForm)
    ensures r.MissingCredentials? <==> AllSpace(username) || AllSpace(password)
    ensures r.PostLogin? ==> r == PostLogin(Trim(username), Trim(password))
    ensures r.PostLogin? ==> r.username != "" && r.password != ""
  {
    var u, p := Trim(username), Trim(password);
    if u == "" || p == "" then MissingCredentials else PostLogin(u, p)
  }

  // ---------------------------------------------------------------------------
  // getCurrentUser
  // ---------------------------------------------------------------------------

  /** `const [key, value] = cookie.trim().split('=')`: the first two fields;
      `value` is undefined when the segment has no `=`. */
  function ParseSegment(segment: string): (string, Option<string>) {
    var fields := Split(Trim(segment), '=');
    (fields[0], if |fields| >= 2 then Some(fields[1]) else None)
  }

  /** The `reduce` over the `;`-separated segments, left to right: each
      segment assigns its key, so a later duplicate overwrites an earlier one. */
  function CookieTable(segments: seq<string>): map<string, Option<string>> {
    if segments == [] then map[]
    else
      var entry := ParseSegment(segments[|segments| - 1]);
      CookieTable(segments[..|segments| - 1])[entry.0 := entry.1]
  }

  /** `getCurrentUser()`: the `username` entry of the table, undefined when
      there is none or when its last segment had no `=`. */
  function GetCurrentUser(cookie: string): Option<string> {
    var table := CookieTable(Split(cookie, ';'));
    if "username" in table then table["username"] else None
  }

  /** A cookie name or value as RFC 6265 section 4.1.1 lets a server set it
      and section 4.2.1 sends it back: no `;` and no white space. A name is a
      token, so it holds no `=` either; a value may. */
  predicate PlainCookieText(s: string) {
    forall i :: 0 <= i < |s| ==> s[i] != ';' && !IsJsSpace(s[i])
  }

  predicate WellFormedPairs(pairs: seq<(string, string)>) {
    forall i :: 0 <= i < |pairs| ==>
      PlainCookieText(pairs[i].0) && '=' !in pairs[i].0 && PlainCookieText(pairs[i].1)
  }

  /** The `Cookie` header shape of RFC 6265 section 4.2.1, as `document.cookie`
      shows it: `name=value` pairs separated by `; `. */
  function CookieSegments(pairs: seq<(string, string)>): (r: seq<string>)
    ensures |r| == |pairs|
  {
    seq(|pairs|, i requires 0 <= i < |pairs| => (if i == 0 then "" else " ") + pairs[i].0 + "=" + pairs[i].1)
  }

  function CookieHeader(pairs: seq<(string, string)>): string {
    Join(CookieSegments(pairs), ';')
  }

  /** What a naive reader keeps of a value: the text before its first `=`. */
  function FirstField(value: string): string {
    Split(value, '=')[0]
  }

  /** The value of the last pair called `name`, as the naive reader sees it. */
  function LastValue(pairs: seq<(string, string)>, name: string): Option<string> {
    if pairs == [] then None
    else if pairs[|pairs| - 1].0 == name then Some(FirstField(pairs[|pairs| - 1].1))
    else LastValue(pairs[..|pairs| - 1], name)
  }

  lemma TrimPlain(pad: string, t: string)
    requires pad == "" || pad == " "
    requires t != [] && !IsJsSpace(t[0]) && !IsJsSpace(t[|t| - 1])
    ensures Trim(pad + t) == t
  {
    var s := pad + t;
    if pad == " " {
      assert s[1..] == t;
      assert TrimStart(s) == TrimStart(t);
    } else {
      assert s == t;
    }
    assert TrimStart(t) == t;
    assert TrimEnd(t) == t;
  }

  /** A `name=value` pair neither starts nor ends with white space. */
  lemma PairEnds(name: string, value: string)
    requires PlainCookieText(name) && PlainCookieText(value)
    ensures var t := name + ['='] + value;
      t != [] && !IsJsSpace(t[0]) && !IsJsSpace(t[|t| - 1])
  {
    var t := name + ['='] + value;
    assert t[0] == if name == [] then '=' else name[0];
    assert t[|t| - 1] == if value == [] then '=' else value[|value| - 1];
  }

  /** Trimming a padded `name=value` segment leaves the pair. */
  lemma TrimSegment(pad: string, name: string, value: string)
    requires pad == "" || pad == " "
    requires PlainCookieText(name) && PlainCookieText(value)
    ensures Trim(pad + name + "=" + value) == name + ['='] + value
  {
    PairEnds(name, value);
    assert pad + name + "=" + value == pad + (name + ['='] + value);
    TrimPlain(pad, name + ['='] + value);
  }

  /** A segment that trims to `name=value` parses to the name and the
      value's first `=`-field. */
  lemma ParseTrimmed(segment: string, name: string, value: string)
    requires Trim(segment) == name + ['='] + value && '=' !in name
    ensures ParseSegment(segment) == (name, Some(FirstField(value)))
  {
    SplitPiece(name, '=', value);
  }

  lemma ParsePlainSegment(pad: string, name: string, value: string)
    requires pad == "" || pad == " "
    requires PlainCookieText(name) && '=' !in name && PlainCookieText(value)
    ensures ParseSegment(pad + name + "=" + value) == (name, Some(FirstField(value)))
  {
    TrimSegment(pad, name, value);
    ParseTrimmed(pad + name + "=" + value, name, value);
  }

  lemma {:induction false} CookieTableOfHeader(pairs: seq<(string, string)>, name: string)
    requires WellFormedPairs(pairs)
    ensures var table := CookieTable(CookieSegments(pairs));
      LastValue(pairs, name) == if name in table then table[name] else None
    ensures pairs != [] ==> forall k :: k in CookieTable(CookieSegments(pairs)) ==>
      CookieTable(CookieSegments(pairs))[k].Some?
  {
    if pairs != [] {
      var n := |pairs|;
      var front := pairs[..n - 1];
      var segs := CookieSegments(pairs);
      assert segs[..n - 1] == CookieSegments(front);
      CookieTableOfHeader(front, name);
      ParsePlainSegment(if n == 1 then "" else " ", pairs[n - 1].0, pairs[n - 1].1);
      assert segs[n - 1] == (if n == 1 then "" else " ") + pairs[n - 1].0 + "=" + pairs[n - 1].1;
      if n == 1 {
        assert front == [];
      }
    }
  }

  /** Read from a well-formed `Cookie` header, `getCurrentUser` returns the
      last `username` pair, cut at the first `=` of its value, and undefined
      when no pair is called `username`. */
  lemma GetCurrentUserOfHeader(pairs: seq<(string, string)>)
    requires WellFormedPairs(pairs)
    ensures GetCurrentUser(CookieHeader(pairs)) == LastValue(pairs, "username")
  {
    var segs := CookieSegments(pairs);
    if pairs == [] {
      assert CookieHeader(pairs) == "";
      assert Split("", ';') == [""];
      assert ParseSegment("") == ("", None);
    } else {
      forall i | 0 <= i < |segs| ensures ';' !in segs[i] {
        assert segs[i] == (if i == 0 then "" else " ") + pairs[i].0 + "=" + pairs[i].1;
      }
      SplitJoin(segs, ';');
      CookieTableOfHeader(pairs, "username");
    }
  }

  lemma UsernameIsPlain()
    ensures PlainCookieText("username") && '=' !in "username"
  {
  }

  /** A `username` value holding `=` is cut short at its first `=`. */
  lemma ValueWithEqualsIsCut(a: string, b: string)
    requires PlainCookieText(a) && '=' !in a && PlainCookieText(b)
    ensures GetCurrentUser(CookieHeader([("username", a + "=" + b)])) == Some(a)
  {
    var pairs := [("username", a + "=" + b)];
    UsernameIsPlain();
    assert WellFormedPairs(pairs);
    GetCurrentUserOfHeader(pairs);
    SplitPiece(a, '=', b);
    assert a + "=" + b == a + ['='] + b;
  }

  /** A segment holding only a name, after the `; ` separator, parses to
      that name with an undefined value. */
  lemma BareSegment(name: string)
    requires name != [] && PlainCookieText(name) && '=' !in name
    ensures ';' !in " " + name
    ensures ParseSegment(" " + name) == (name, None)
  {
    TrimPlain(" ", name);
    SplitWhole(name, '=');
  }

  /** The last segment that names a key decides its entry. */
  lemma LastSegmentDecides(segments: seq<string>, key: string)
    requires segments != [] && ParseSegment(segments[|segments| - 1]).0 == key
    ensures key in CookieTable(segments)
    ensures CookieTable(segments)[key] == ParseSegment(segments[|segments| - 1]).1
  {
  }

  lemma {:induction false} SplitAtLastSeparator(earlier: string, last: string)
    requires ';' !in earlier && ';' !in last
    ensures Split(earlier + [';'] + last, ';') == [earlier, last]
  {
    SplitPiece(earlier, ';', last);
    SplitWhole(last, ';');
  }

  /** A last segment naming a key without `=` hides whatever came before
      it: the key's entry is undefined. */
  lemma {:induction false} BareKeyHidesEarlierValue(earlier: string, key: string)
    requires ';' !in earlier && key != [] && PlainCookieText(key) && '=' !in key
    ensures var table := CookieTable(Split(earlier + [';'] + (" " + key), ';'));
      key in table && table[key] == None
  {
    BareSegment(key);
    SplitAtLastSeparator(earlier, " " + key);
    LastSegmentDecides([earlier, " " + key], key);
  }

  /** A trailing bare `username` segment makes the user undefined, whatever
      `username=value` came before it. */
  lemma BareUsernameHidesEarlierValue(earlier: string)
    requires ';' !in earlier
    ensures GetCurrentUser(earlier + [';'] + (" " + "username")) == None
  {
    UsernameIsPlain();
    BareKeyHidesEarlierValue(earlier, "username");
  }
}
