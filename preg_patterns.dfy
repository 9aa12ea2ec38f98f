/** The three regular-expression shapes the evaluator hands to preg_replace and
    preg_replace_callback, each modelled as a left-to-right scan:

    - `/NAME\(([^)]+)\)/`   NAME, an opening parenthesis, a non-empty run of
                            characters other than `)` (the captured argument), `)`;
    - `/\bNAME\([^)]+\)/`   the same, starting at a word boundary, replaced by '';
    - `/\bNAME\b/`          a whole-word occurrence of a literal name (preg_quote'd).

    Matches are leftmost and non-overlapping and the scan resumes after each
    match, as in PCRE. The word characters of `\b` are the ASCII letters, digits
    and `_`; `afterWord` says whether the character before the scanned text is one. */
module PregPatterns {
  import opened Wrappers
  import opened PhpStrings

  predicate IsWordChar(c: char) {
    'a' <= c <= 'z' || 'A' <= c <= 'Z' || '0' <= c <= '9' || c == '_'
  }

  /** Whether `\b` holds at the start of s, given the wordness of the character
      before it; the end of the subject counts as a non-word character. */
  predicate BoundaryBefore(afterWord: bool, s: string) {
    afterWord != (s != [] && IsWordChar(s[0]))
  }

  /** The wordness of the last character of p, or `afterWord` when p is empty. */
  function EndsWithWord(p: string, afterWord: bool): bool {
    if p == [] then afterWord else IsWordChar(p[|p| - 1])
  }

  // ---------------------------------------------------------------------------
  // NAME\(([^)]+)\)
  // ---------------------------------------------------------------------------

  /** A match at the start of the subject: the captured argument and the text
      after the closing parenthesis. */
  datatype CallMatch = CallMatch(arg: string, rest: string)

  /** The match of NAME\(([^)]+)\) at the start of s, if there is one: the
      argument runs up to the first `)` and must not be empty. */
  function MatchCall(s: string, name: string): (m: Option<CallMatch>)
    ensures m.Some? ==> s == name + "(" + m.value.arg + ")" + m.value.rest
    ensures m.Some? ==> m.value.arg != [] && ')' !in m.value.arg
    ensures ')' !in s ==> m.None?
    ensures name != [] && s != [] && s[0] != name[0] ==> m.None?
  {
    var open := |name| + 1;
    if |s| < open || s[..open] != name + "(" then None
    else match IndexOf(s[open..], ')')
      case None => None
      case Some(k) =>
        if k == 0 then None
        else
          var m := CallMatch(s[open..open + k], s[open + k + 1..]);
          assert m.arg == s[open..][..k];
          assert s == s[..open] + m.arg + ")" + m.rest;
          assert s[open + k] == ')';
          Some(m)
  }

  /** A call written out is matched, with exactly its argument captured. */
  lemma MatchCallOf(name: string, arg: string, rest: string)
    requires arg != [] && ')' !in arg
    ensures MatchCall(name + "(" + arg + ")" + rest, name) == Some(CallMatch(arg, rest))
  {
    CallSlices(name, arg, rest);
    assert ")" == [')'];
    IndexOfFirst(arg, ')', rest);
  }

  /** The pieces MatchCall cuts a written-out call into. */
  lemma CallSlices(name: string, arg: string, rest: string)
    ensures var s, open := name + "(" + arg + ")" + rest, |name| + 1;
      && s[..open] == name + "("
      && s[open..] == arg + ")" + rest
      && s[open..open + |arg|] == arg
      && s[open + |arg| + 1..] == rest
  {
  }

  /** preg_replace_callback('/NAME\(([^)]+)\)/', f, s): each match is replaced by
      f applied to its captured argument; the replacement is not rescanned. */
  function RewriteCalls(s: string, name: string, f: string -> string): string
    decreases |s|
  {
    if s == [] then []
    else match MatchCall(s, name)
      case Some(m) => f(m.arg) + RewriteCalls(m.rest, name, f)
      case None => [s[0]] + RewriteCalls(s[1..], name, f)
  }

  /** Text in which no match can start is copied unchanged. */
  lemma {:induction false} RewriteCallsCopies(p: string, s: string, name: string, f: string -> string)
    requires name != [] && name[0] !in p
    ensures RewriteCalls(p + s, name, f) == p + RewriteCalls(s, name, f)
    decreases |p|
  {
    if p != [] {
      assert (p + s)[0] == p[0];
      assert (p + s)[1..] == p[1..] + s;
      RewriteCallsCopies(p[1..], s, name, f);
    } else {
      assert p + s == s;
    }
  }

  /** A call at the scan position is replaced by the callback's result for its
      argument, and scanning resumes after its closing parenthesis. */
  lemma RewriteCallsAtCall(name: string, arg: string, rest: string, f: string -> string)
    requires arg != [] && ')' !in arg
    ensures RewriteCalls(name + "(" + arg + ")" + rest, name, f) == f(arg) + RewriteCalls(rest, name, f)
  {
    MatchCallOf(name, arg, rest);
  }

  /** A subject that is exactly one call becomes the callback's result. */
  lemma RewriteCallsSingleCall(name: string, arg: string, f: string -> string)
    requires arg != [] && ')' !in arg
    ensures RewriteCalls(name + "(" + arg + ")", name, f) == f(arg)
  {
    assert name + "(" + arg + ")" == name + "(" + arg + ")" + [];
    RewriteCallsAtCall(name, arg, [], f);
  }

  /** Text without the name's first character is left alone. */
  lemma RewriteCallsAbsent(s: string, name: string, f: string -> string)
    requires name != [] && name[0] !in s
    ensures RewriteCalls(s, name, f) == s
  {
    RewriteCallsCopies(s, [], name, f);
    assert s + [] == s;
  }

  /** Text without a closing parenthesis holds no match at all. */
  lemma {:induction false} RewriteCallsWithoutParen(s: string, name: string, f: string -> string)
    requires ')' !in s
    ensures RewriteCalls(s, name, f) == s
    decreases |s|
  {
    if s != [] {
      assert ')' !in s[1..] by {
        assert forall i :: 0 <= i < |s| - 1 ==> s[1..][i] == s[i + 1];
      }
      RewriteCallsWithoutParen(s[1..], name, f);
      assert s == [s[0]] + s[1..];
    }
  }

  /** `NAME(` occurs nowhere in s. */
  predicate CallFree(s: string, name: string) {
    forall i :: 0 <= i <= |s| ==> !(name + "(" <= s[i..])
  }

  /** Text without `(` holds no `NAME(`. */
  lemma CallFreeWithoutOpen(s: string, name: string)
    requires '(' !in s
    ensures CallFree(s, name)
  {
    forall i | 0 <= i <= |s|
      ensures !(name + "(" <= s[i..])
    {
      if i + |name| < |s| {
        assert s[i + |name|] in s;
        assert s[i..][|name|] == s[i + |name|];
        assert (name + "(")[|name|] == '(';
      }
    }
  }

  /** Text without the name's first character holds no `NAME(`. */
  lemma CallFreeWithoutFirst(s: string, name: string)
    requires name != [] && name[0] !in s
    ensures CallFree(s, name)
  {
    forall i | 0 <= i <= |s|
      ensures !(name + "(" <= s[i..])
    {
      if i < |s| {
        assert s[i] in s;
        assert s[i..][0] == s[i] && (name + "(")[0] == name[0];
      }
    }
  }

  /** Gluing two texts without `NAME(` gives none, unless the glue point could
      complete one: that needs a character of the name at the end of a and a
      later character of `NAME(` at the start of b. */
  lemma CallFreeAppend(a: string, b: string, name: string)
    requires name != [] && CallFree(a, name) && CallFree(b, name)
    requires a == [] || b == [] || a[|a| - 1] !in name || b[0] !in (name + "(")[1..]
    ensures CallFree(a + b, name)
  {
    var p, s := name + "(", a + b;
    forall i | 0 <= i <= |s|
      ensures !(p <= s[i..])
    {
      if i + |p| > |s| {
      } else if i + |p| <= |a| {
        assert !(p <= a[i..]);
        assert a[i..][..|p|] == s[i..][..|p|];
      } else if i >= |a| {
        assert s[i..] == b[i - |a|..];
      } else {
        var k := |a| - 1 - i;
        assert s[i..][k] == a[|a| - 1] && s[i..][k + 1] == b[0];
        assert p[k] == name[k] && name[k] in name;
        assert p[k + 1] == p[1..][k] && p[1..][k] in p[1..];
      }
    }
  }

  /** A text without `NAME(` between an opening that cannot start one across
      the join and a closing that cannot end one holds none either. */
  lemma CallFreeBetween(a: string, x: string, c: string, name: string)
    requires name != [] && CallFree(a, name) && CallFree(x, name) && CallFree(c, name)
    requires a != [] && a[|a| - 1] !in name
    requires c != [] && c[0] !in (name + "(")[1..]
    ensures CallFree(a + x + c, name)
  {
    CallFreeAppend(a, x, name);
    CallFreeAppend(a + x, c, name);
  }

  /** Text in which `NAME(` occurs nowhere is left alone. */
  lemma {:induction false} RewriteCallsWithoutCall(s: string, name: string, f: string -> string)
    requires CallFree(s, name)
    ensures RewriteCalls(s, name, f) == s
    decreases |s|
  {
    if s != [] {
      assert s[0..] == s;
      assert !(name + "(" <= s);
      forall i | 0 <= i <= |s[1..]|
        ensures !(name + "(" <= s[1..][i..])
      {
        assert s[1..][i..] == s[i + 1..];
      }
      RewriteCallsWithoutCall(s[1..], name, f);
      assert s == [s[0]] + s[1..];
    }
  }

  // ---------------------------------------------------------------------------
  // \bNAME\([^)]+\) replaced by ''
  // ---------------------------------------------------------------------------

  /** preg_replace('/\bNAME\([^)]+\)/', '', s): every match that starts at a word
      boundary is deleted. */
  function RemoveWordCalls(s: string, name: string, afterWord: bool): string
    decreases |s|
  {
    if s == [] then []
    else match MatchCall(s, name)
      case Some(m) =>
        if BoundaryBefore(afterWord, s) then RemoveWordCalls(m.rest, name, false)
        else [s[0]] + RemoveWordCalls(s[1..], name, IsWordChar(s[0]))
      case None => [s[0]] + RemoveWordCalls(s[1..], name, IsWordChar(s[0]))
  }

  /** Without a closing parenthesis the deletion never applies. */
  lemma {:induction false} RemoveWordCallsWithoutParen(s: string, name: string, afterWord: bool)
    requires ')' !in s
    ensures RemoveWordCalls(s, name, afterWord) == s
    decreases |s|
  {
    if s != [] {
      assert ')' !in s[1..] by {
        assert forall i :: 0 <= i < |s| - 1 ==> s[1..][i] == s[i + 1];
      }
      RemoveWordCallsWithoutParen(s[1..], name, IsWordChar(s[0]));
      assert s == [s[0]] + s[1..];
    }
  }

  // ---------------------------------------------------------------------------
  // \bNAME\b replaced by a literal text
  // ---------------------------------------------------------------------------

  /** Whether the literal name occurs at the start of s delimited by `\b` on both
      sides. */
  predicate WholeWordAt(s: string, name: string, afterWord: bool) {
    && name <= s
    && BoundaryBefore(afterWord, s)
    && BoundaryBefore(EndsWithWord(name, afterWord), s[|name|..])
  }

  /** preg_replace('/\b' . preg_quote(name) . '\b/', replacement, s) with the
      replacement taken literally. An empty name matches the empty string at
      every word boundary; after such a match the scan copies one character
      and moves on, as PCRE does after an empty match. */
  function ReplaceWord(s: string, name: string, replacement: string, afterWord: bool): string
    decreases |s|
  {
    if WholeWordAt(s, name, afterWord) then
      if name != [] then
        replacement + ReplaceWord(s[|name|..], name, replacement, IsWordChar(name[|name| - 1]))
      else if s == [] then replacement
      else replacement + [s[0]] + ReplaceWord(s[1..], name, replacement, IsWordChar(s[0]))
    else if s == [] then []
    else [s[0]] + ReplaceWord(s[1..], name, replacement, IsWordChar(s[0]))
  }

  /** Replacing a name by itself changes nothing. */
  lemma {:induction false} ReplaceWordSelf(s: string, name: string, afterWord: bool)
    ensures ReplaceWord(s, name, name, afterWord) == s
    decreases |s|
  {
    if WholeWordAt(s, name, afterWord) {
      if name != [] {
        ReplaceWordSelf(s[|name|..], name, IsWordChar(name[|name| - 1]));
        assert s == name + s[|name|..];
      } else if s != [] {
        ReplaceWordSelf(s[1..], name, IsWordChar(s[0]));
        assert s == [s[0]] + s[1..];
      }
    } else if s != [] {
      ReplaceWordSelf(s[1..], name, IsWordChar(s[0]));
      assert s == [s[0]] + s[1..];
    }
  }

  /** Text in which the name's first character does not occur is copied
      unchanged, and the scan goes on with the wordness of its last character. */
  lemma {:induction false} ReplaceWordCopies(p: string, s: string, name: string, replacement: string, afterWord: bool)
    requires name != [] && name[0] !in p
    ensures ReplaceWord(p + s, name, replacement, afterWord)
         == p + ReplaceWord(s, name, replacement, EndsWithWord(p, afterWord))
    decreases |p|
  {
    if p != [] {
      assert (p + s)[0] == p[0];
      assert !(name <= p + s);
      assert (p + s)[1..] == p[1..] + s;
      ReplaceWordCopies(p[1..], s, name, replacement, IsWordChar(p[0]));
      assert EndsWithWord(p[1..], IsWordChar(p[0])) == EndsWithWord(p, afterWord);
    } else {
      assert p + s == s;
    }
  }

  /** A whole-word occurrence at the scan position is replaced and scanning
      resumes after it. */
  lemma ReplaceWordAtWord(name: string, s: string, replacement: string, afterWord: bool)
    requires name != []
    requires afterWord != IsWordChar(name[0])
    requires BoundaryBefore(IsWordChar(name[|name| - 1]), s)
    ensures ReplaceWord(name + s, name, replacement, afterWord)
         == replacement + ReplaceWord(s, name, replacement, IsWordChar(name[|name| - 1]))
  {
    assert (name + s)[|name|..] == s;
    assert (name + s)[0] == name[0];
  }

  /** An occurrence of the name that is glued to a word character on either
      side is not replaced: the scan copies its first character. */
  lemma ReplaceWordInsideWord(name: string, s: string, replacement: string, afterWord: bool)
    requires name != []
    requires afterWord == IsWordChar(name[0]) || !BoundaryBefore(IsWordChar(name[|name| - 1]), s)
    ensures ReplaceWord(name + s, name, replacement, afterWord)
         == [name[0]] + ReplaceWord(name[1..] + s, name, replacement, IsWordChar(name[0]))
  {
    assert (name + s)[|name|..] == s;
    assert (name + s)[0] == name[0];
    assert (name + s)[1..] == name[1..] + s;
  }

  // ---------------------------------------------------------------------------
  // The replacement text of preg_replace
  // ---------------------------------------------------------------------------

  function DigitValue(c: char): nat
    requires IsDigit(c)
  {
    c as int - '0' as int
  }

  /** The back-reference at the start of a replacement text that starts with a
      backslash or a dollar: `\d`, `\dd`, `$d`, `$dd`, `${d}` or `${dd}`, as its
      group number and its length. There is none when the next character is
      missing or NUL, when no digit follows, or when `${` is not closed right
      after the digits. */
  function BackrefAt(rep: string): (r: Option<(nat, nat)>)
    requires rep != [] && (rep[0] == '\\' || rep[0] == '$')
    ensures r.Some? ==> 2 <= r.value.1 <= |rep| && r.value.0 < 100
    ensures r.Some? ==> IsDigit(rep[r.value.1 - 1]) || rep[r.value.1 - 1] == '}'
  {
    if |rep| < 2 || rep[1] == '\0' then None
    else
      var brace := rep[0] == '$' && rep[1] == '{';
      var d := if brace then 2 else 1;
      if d >= |rep| || !IsDigit(rep[d]) then None
      else
        var two := d + 1 < |rep| && IsDigit(rep[d + 1]);
        var group := if two then 10 * DigitValue(rep[d]) + DigitValue(rep[d + 1]) else DigitValue(rep[d]);
        var end := if two then d + 2 else d + 1;
        if !brace then Some((group, end))
        else if end < |rep| && rep[end] == '}' then Some((group, end + 1))
        else None
  }

  /** The text preg_replace writes for one match of a pattern without capture
      groups, whose matched text is `whole`, given the replacement text `rep`:
      a reference to group 0 writes the match and one to any other group writes
      nothing; a backslash that is not a reference and is followed by a
      backslash or a dollar writes that second character alone; every other
      character is written as it is. */
  function ExpandReplacement(rep: string, whole: string): string
    decreases |rep|
  {
    if rep == [] then []
    else if rep[0] == '\\' || rep[0] == '$' then
      match BackrefAt(rep)
      case Some((group, length)) =>
        (if group == 0 then whole else []) + ExpandReplacement(rep[length..], whole)
      case None =>
        if rep[0] == '\\' && |rep| >= 2 && (rep[1] == '\\' || rep[1] == '$') then
          [rep[1]] + ExpandReplacement(rep[2..], whole)
        else [rep[0]] + ExpandReplacement(rep[1..], whole)
    else [rep[0]] + ExpandReplacement(rep[1..], whole)
  }

  /** A replacement text without backslash or dollar is written as it is. */
  lemma {:induction false} ExpandPlain(rep: string, whole: string)
    requires '\\' !in rep && '$' !in rep
    ensures ExpandReplacement(rep, whole) == rep
    decreases |rep|
  {
    if rep != [] {
      assert '\\' !in rep[1..] && '$' !in rep[1..] by {
        assert forall i :: 0 <= i < |rep| - 1 ==> rep[1..][i] == rep[i + 1];
      }
      ExpandPlain(rep[1..], whole);
      assert rep == [rep[0]] + rep[1..];
    }
  }

  /** A backslash before every backslash and dollar: the escaping under which
      preg_replace writes a text as it is. */
  function EscapeReplacement(t: string): string {
    if t == [] then []
    else (if t[0] == '\\' || t[0] == '$' then ['\\', t[0]] else [t[0]]) + EscapeReplacement(t[1..])
  }

  /** preg_replace writes an escaped text back as it was, whatever the match. */
  lemma {:induction false} EscapeReplacementRoundTrip(t: string, whole: string)
    ensures ExpandReplacement(EscapeReplacement(t), whole) == t
  {
    if t != [] {
      var rest := EscapeReplacement(t[1..]);
      var rep := EscapeReplacement(t);
      EscapeReplacementRoundTrip(t[1..], whole);
      if t[0] == '\\' || t[0] == '$' {
        assert rep == ['\\', t[0]] + rest;
        assert rep[1] == t[0] && rep[2..] == rest;
        assert BackrefAt(rep).None?;
      } else {
        assert rep == [t[0]] + rest;
        assert rep[1..] == rest;
      }
      assert t == [t[0]] + t[1..];
    }
  }
}
