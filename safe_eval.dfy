/** safeEval: a character whitelist, the operator rewrite, and the call to
    eval. What eval does with the code is outside the model: it is an oracle
    passed in as a parameter, which either returns the truth value of the
    result (the `(bool)` cast) or throws. */
module SafeEvaluation {
  import opened PhpStrings
  import opened FormValues

  // ---------------------------------------------------------------------------
  // The whitelist /^[a-zA-Z0-9\s\+\-\*\/\%\.\<\>\=\!\&\|\(\)\'\"\s]+$/
  // ---------------------------------------------------------------------------

  /** PCRE's \s without the u modifier: space, tab, newline, vertical tab, form
      feed and carriage return. */
  predicate IsPcreSpace(c: char) {
    c == ' ' || c == '\t' || c == '\n' || c == '\U{0B}' || c == '\U{0C}' || c == '\r'
  }

  predicate AllowedChar(c: char) {
    || 'a' <= c <= 'z' || 'A' <= c <= 'Z' || '0' <= c <= '9'
    || IsPcreSpace(c)
    || c in "+-*/%.<>=!&|()'\""
  }

  /** The expression passes the whitelist: it is not empty and every character
      is allowed. (`$` may also match before a final newline, but a newline is
      allowed anyway.) */
  predicate Whitelisted(expression: string) {
    expression != [] && forall i :: 0 <= i < |expression| ==> AllowedChar(expression[i])
  }

  /** Any occurrence of a character outside the whitelist rejects the whole
      expression; underscore, comma, backslash, colon and semicolon are such
      characters. */
  lemma RejectedCharacters(expression: string, i: nat)
    requires i < |expression|
    requires expression[i] in "_,\\:;"
    ensures !Whitelisted(expression)
  {
    assert !AllowedChar(expression[i]);
  }

  /** A string value without NUL or dollar that holds a quote, a double quote
      or a backslash is written into the formula with a backslash, and the
      whitelist rejects any text that carries it. */
  lemma EscapedLiteralRejected(s: string, name: string, before: string, after: string)
    requires forall i :: 0 <= i < |s| ==> s[i] != '\0' && s[i] != '$'
    requires exists i :: 0 <= i < |s| && (s[i] == '\'' || s[i] == '"' || s[i] == '\\')
    ensures !Whitelisted(before + Inserted(Str(s), name) + after)
  {
    var l := Inserted(Str(s), name);
    InsertedStringEscapes(s, name);
    BackslashRejected(before, l, after);
  }

  lemma BackslashRejected(before: string, l: string, after: string)
    requires '\\' in l
    ensures !Whitelisted(before + l + after)
  {
    var i :| 0 <= i < |l| && l[i] == '\\';
    var e := before + l + after;
    assert e[|before| + i] == '\\';
    RejectedCharacters(e, |before| + i);
  }

  // ---------------------------------------------------------------------------
  // str_replace(['!=', '<=', '>=', '='], ['!==', '<=', '>=', '=='], $expression)
  // ---------------------------------------------------------------------------

  /** The four replacements, applied one after the other to the whole text. */
  function RewriteOperators(expression: string): string {
    var s1 := StrReplace(expression, "!=", "!==");
    var s2 := StrReplace(s1, "<=", "<=");
    var s3 := StrReplace(s2, ">=", ">=");
    StrReplace(s3, "=", "==")
  }

  /** The rewrite character by character: an `=` right after `!` becomes four
      `=`, any other `=` becomes two, every other character stays. */
  function DoubledEquals(s: string, afterBang: bool): string
    decreases |s|
  {
    if s == [] then []
    else DoubledChar(s[0], afterBang) + DoubledEquals(s[1..], s[0] == '!')
  }

  /** What the doubling makes of one character. */
  function DoubledChar(c: char, afterBang: bool): string {
    if c == '=' then (if afterBang then "====" else "==") else [c]
  }

  /** Replacing a single character distributes over concatenation. */
  lemma {:induction false} StrReplaceCharAppend(a: string, b: string, c: char, replacement: string)
    ensures StrReplace(a + b, [c], replacement) == StrReplace(a, [c], replacement) + StrReplace(b, [c], replacement)
    decreases |a|
  {
    if a == [] {
      assert a + b == b;
    } else {
      var head := if a[0] == c then replacement else [a[0]];
      assert StrReplace(a + b, [c], replacement) == head + StrReplace(a[1..] + b, [c], replacement) by {
        assert (a + b)[0] == a[0];
        assert ([c] <= a + b) == (a[0] == c);
        assert (a + b)[1..] == a[1..] + b;
      }
      assert StrReplace(a, [c], replacement) == head + StrReplace(a[1..], [c], replacement) by {
        assert ([c] <= a) == (a[0] == c);
      }
      StrReplaceCharAppend(a[1..], b, c, replacement);
      var x, y := StrReplace(a[1..], [c], replacement), StrReplace(b, [c], replacement);
      AppendAssociative(head, x, y);
    }
  }

  /** The `=` pass over the `!==` written by the `!=` pass. */
  lemma BangEqualsDoubled()
    ensures StrReplace("!==", "=", "==") == "!===="
  {
    var e: string := "=";
    assert e == ['='];
    assert StrReplace([], e, "==") == [];
    assert StrReplace(['='], e, "==") == "==" + StrReplace([], e, "==");
    assert ['=', '='][1..] == ['='];
    assert StrReplace(['=', '='], e, "==") == "==" + StrReplace(['='], e, "==");
    assert ['!', '=', '='][1..] == ['=', '='];
    assert !(e <= ['!', '=', '=']);
    assert StrReplace(['!', '=', '='], e, "==") == ['!'] + StrReplace(['=', '='], e, "==");
    assert "!==" == ['!', '=', '='];
  }

  /** Whether the last character seen is `!` only matters before an `=`. */
  lemma AfterBangIrrelevant(s: string)
    requires s == [] || s[0] != '='
    ensures DoubledEquals(s, true) == DoubledEquals(s, false)
  {
  }

  /** `!=` to `!==` and then `=` to `==` is the character-wise doubling. */
  lemma {:induction false} BangThenEquals(s: string)
    ensures StrReplace(StrReplace(s, "!=", "!=="), "=", "==") == DoubledEquals(s, false)
    decreases |s|
  {
    if s == [] {
    } else if "!=" <= s {
      BangThenEquals(s[2..]);
      BangStep(s);
    } else {
      BangThenEquals(s[1..]);
      PlainStep(s);
    }
  }

  /** Both rewrites over text that starts with `!=`. */
  lemma BangStep(s: string)
    requires "!=" <= s
    ensures StrReplace(StrReplace(s, "!=", "!=="), "=", "==")
         == "!====" + StrReplace(StrReplace(s[2..], "!=", "!=="), "=", "==")
    ensures DoubledEquals(s, false) == "!====" + DoubledEquals(s[2..], false)
  {
    var t := StrReplace(s[2..], "!=", "!==");
    assert StrReplace(s, "!=", "!==") == "!==" + t;
    assert "=" == ['='];
    StrReplaceCharAppend("!==", t, '=', "==");
    BangEqualsDoubled();
    assert s[0] == '!' && s[1] == '=' by {
      assert s[..2] == "!=";
    }
    assert s[1..][1..] == s[2..];
    var x := DoubledEquals(s[2..], false);
    assert DoubledEquals(s[1..], true) == "====" + x;
    assert DoubledEquals(s, false) == "!" + ("====" + x);
    AppendAssociative("!", "====", x);
    assert "!" + "====" == "!====";
  }

  /** Both rewrites over text that does not start with `!=`. */
  lemma PlainStep(s: string)
    requires s != [] && !("!=" <= s)
    ensures StrReplace(StrReplace(s, "!=", "!=="), "=", "==")
         == DoubledChar(s[0], false) + StrReplace(StrReplace(s[1..], "!=", "!=="), "=", "==")
    ensures DoubledEquals(s, false) == DoubledChar(s[0], false) + DoubledEquals(s[1..], false)
  {
    var t := StrReplace(s[1..], "!=", "!==");
    assert StrReplace(s, "!=", "!==") == [s[0]] + t;
    assert "=" == ['='];
    StrReplaceCharAppend([s[0]], t, '=', "==");
    OneCharDoubled(s[0]);
    if s[0] == '!' {
      assert s[1..] == [] || s[1..][0] != '=' by {
        if |s| >= 2 { assert s[..2] == [s[0], s[1]]; }
      }
      AfterBangIrrelevant(s[1..]);
    }
  }

  /** The `=` pass over a single character. */
  lemma OneCharDoubled(c: char)
    ensures StrReplace([c], "=", "==") == DoubledChar(c, false)
  {
    var e: string := "=";
    assert e == ['='];
    assert [c][1..] == [];
    if c == '=' {
      assert [c] == e;
    } else {
      assert [c][0] != e[0];
    }
    assert StrReplace([], e, "==") == [];
  }

  /** Text without `=` is not changed by the doubling. */
  lemma {:induction false} DoubledEqualsWithoutEquals(s: string, afterBang: bool)
    requires '=' !in s
    ensures DoubledEquals(s, afterBang) == s
    decreases |s|
  {
    if s != [] {
      assert '=' !in s[1..] by {
        assert forall i :: 0 <= i < |s| - 1 ==> s[1..][i] == s[i + 1];
      }
      DoubledEqualsWithoutEquals(s[1..], s[0] == '!');
      assert s == [s[0]] + s[1..];
    }
  }

  /** The first step of the doubling over a + b is its first step over a. */
  lemma DoubledEqualsFirst(a: string, b: string, afterBang: bool)
    requires a != []
    ensures DoubledEquals(a + b, afterBang)
         == DoubledChar(a[0], afterBang) + DoubledEquals(a[1..] + b, a[0] == '!')
  {
    assert (a + b)[0] == a[0];
    assert (a + b)[1..] == a[1..] + b;
  }

  /** The doubling works piece by piece: the second piece is doubled knowing
      whether the first ended with `!`. */
  lemma {:induction false} DoubledEqualsAppend(a: string, b: string, afterBang: bool)
    ensures DoubledEquals(a + b, afterBang)
         == DoubledEquals(a, afterBang) + DoubledEquals(b, if a == [] then afterBang else a[|a| - 1] == '!')
    decreases |a|
  {
    if a == [] {
      assert a + b == b;
    } else {
      var head := DoubledChar(a[0], afterBang);
      var bang := a[|a| - 1] == '!';
      var x, y := DoubledEquals(a[1..], a[0] == '!'), DoubledEquals(b, bang);
      DoubledEqualsFirst(a, b, afterBang);
      DoubledEqualsAppend(a[1..], b, a[0] == '!');
      LastOfTail(a);
      assert DoubledEquals(a, afterBang) == head + x;
      AppendAssociative(head, x, y);
    }
  }

  /** The last character of a non-empty text is the last of its tail, or its
      first when the tail is empty. */
  lemma LastOfTail(a: string)
    requires a != []
    ensures a[|a| - 1] == if a[1..] == [] then a[0] else a[1..][|a[1..]| - 1]
  {
  }

  /** The operator rewrite is the character-wise doubling: `=` ends as `==`,
      `!=` as `!====`, `<=` as `<==` and `>=` as `>==`. */
  lemma RewriteOperatorsDoubles(expression: string)
    ensures RewriteOperators(expression) == DoubledEquals(expression, false)
  {
    var s1 := StrReplace(expression, "!=", "!==");
    StrReplaceSelf(s1, "<=");
    StrReplaceSelf(s1, ">=");
    BangThenEquals(expression);
  }

  /** The number of occurrences of c in s. */
  function Count(s: string, c: char): nat {
    if s == [] then 0 else (if s[0] == c then 1 else 0) + Count(s[1..], c)
  }

  /** The number of occurrences of `!=` in s. */
  function CountBangEquals(s: string): nat {
    if |s| < 2 then 0 else (if s[0] == '!' && s[1] == '=' then 1 else 0) + CountBangEquals(s[1..])
  }

  /** s without its `=` characters. */
  function WithoutEquals(s: string): string {
    if s == [] then [] else (if s[0] == '=' then [] else [s[0]]) + WithoutEquals(s[1..])
  }

  lemma {:induction false} CountAppend(a: string, b: string, c: char)
    ensures Count(a + b, c) == Count(a, c) + Count(b, c)
  {
    if a != [] {
      assert (a + b)[1..] == a[1..] + b;
      CountAppend(a[1..], b, c);
    } else {
      assert a + b == b;
    }
  }

  lemma {:induction false} WithoutEqualsAppend(a: string, b: string)
    ensures WithoutEquals(a + b) == WithoutEquals(a) + WithoutEquals(b)
  {
    if a != [] {
      assert (a + b)[1..] == a[1..] + b;
      WithoutEqualsAppend(a[1..], b);
    } else {
      assert a + b == b;
    }
  }

  /** What the doubling makes of one character. */
  lemma HeadCounts(c: char, afterBang: bool)
    ensures Count(DoubledChar(c, afterBang), '=')
         == if c == '=' then (if afterBang then 4 else 2) else 0
    ensures WithoutEquals(DoubledChar(c, afterBang))
         == if c == '=' then [] else [c]
  {
    assert "====" == ['=', '=', '=', '='] && "==" == ['=', '='];
    assert Count(['='], '=') == 1 && WithoutEquals(['=']) == [];
    assert Count(['=', '='], '=') == 2 && WithoutEquals(['=', '=']) == [];
    assert Count(['=', '=', '='], '=') == 3 && WithoutEquals(['=', '=', '=']) == [];
    assert Count([c], '=') == (if c == '=' then 1 else 0);
  }

  /** The doubling adds two `=` per `=` and two more per `!=` (counting a
      leading `=` after a `!` that came before s), and changes no other
      character. */
  lemma {:induction false} DoubledEqualsCounts(s: string, afterBang: bool)
    ensures Count(DoubledEquals(s, afterBang), '=')
         == 2 * Count(s, '=') + 2 * CountBangEquals(s)
            + (if afterBang && s != [] && s[0] == '=' then 2 else 0)
    ensures WithoutEquals(DoubledEquals(s, afterBang)) == WithoutEquals(s)
    decreases |s|
  {
    if s != [] {
      var head := DoubledChar(s[0], afterBang);
      DoubledEqualsCounts(s[1..], s[0] == '!');
      CountAppend(head, DoubledEquals(s[1..], s[0] == '!'), '=');
      WithoutEqualsAppend(head, DoubledEquals(s[1..], s[0] == '!'));
      HeadCounts(s[0], afterBang);
      if |s| >= 2 {
        assert s[1..][0] == s[1];
      }
    }
  }

  /** The rewritten expression holds 2·#`=` + 2·#`!=` equals signs, and
      deleting the `=` characters from it gives the original without its `=`
      characters. */
  lemma RewriteOperatorsCounts(expression: string)
    ensures Count(RewriteOperators(expression), '=') == 2 * Count(expression, '=') + 2 * CountBangEquals(expression)
    ensures WithoutEquals(RewriteOperators(expression)) == WithoutEquals(expression)
  {
    RewriteOperatorsDoubles(expression);
    DoubledEqualsCounts(expression, false);
  }

  /** What the replacement pairs evidently aim at, done in one left-to-right
      pass as strtr() does with the same pairs: `!=` becomes `!==`, `<=` and
      `>=` stay, and only a lone `=` becomes `==`. */
  function IntendedOperators(s: string): string
    decreases |s|
  {
    if s == [] then []
    else if ComparisonAt(s, '!') then "!==" + IntendedOperators(s[2..])
    else if ComparisonAt(s, '<') || ComparisonAt(s, '>') then [s[0], '='] + IntendedOperators(s[2..])
    else if s[0] == '=' then "==" + IntendedOperators(s[1..])
    else [s[0]] + IntendedOperators(s[1..])
  }

  /** Whether s starts with the two-character operator made of c and `=`. */
  predicate ComparisonAt(s: string, c: char) {
    |s| >= 2 && s[0] == c && s[1] == '='
  }

  /** The one-pass rewrite works piece by piece when the second piece does
      not start with `=`, since every two-character operator ends with `=`. */
  lemma {:induction false} IntendedOperatorsAppend(a: string, b: string)
    requires b == [] || b[0] != '='
    ensures IntendedOperators(a + b) == IntendedOperators(a) + IntendedOperators(b)
    decreases |a|
  {
    if a == [] {
      assert a + b == b;
    } else {
      var n, head := IntendedOperatorsFirstStep(a, b);
      IntendedOperatorsAppend(a[n..], b);
      var x, y := IntendedOperators(a[n..]), IntendedOperators(b);
      AppendAssociative(head, x, y);
    }
  }

  /** The first step of the scan over a + b is the first step of the scan
      over a. */
  lemma IntendedOperatorsFirstStep(a: string, b: string) returns (n: nat, head: string)
    requires a != []
    requires b == [] || b[0] != '='
    ensures 1 <= n <= |a|
    ensures IntendedOperators(a + b) == head + IntendedOperators(a[n..] + b)
    ensures IntendedOperators(a) == head + IntendedOperators(a[n..])
  {
    var two := ComparisonAt(a, '!') || ComparisonAt(a, '<') || ComparisonAt(a, '>');
    n := if two then 2 else 1;
    head := if ComparisonAt(a, '!') then "!==" else if two then [a[0], '=']
            else if a[0] == '=' then "==" else [a[0]];
    assert (a + b)[n..] == a[n..] + b;
    assert (a + b)[0] == a[0];
    if |a| >= 2 {
      assert (a + b)[1] == a[1];
    } else if b != [] {
      assert (a + b)[1] == b[0];
    }
  }

  /** Text without `=` is not changed by the one-pass rewrite. */
  lemma {:induction false} IntendedOperatorsWithoutEquals(s: string)
    requires '=' !in s
    ensures IntendedOperators(s) == s
    decreases |s|
  {
    if s != [] {
      assert |s| >= 2 ==> s[1] != '=' by {
        if |s| >= 2 { assert s[1] in s; }
      }
      assert '=' !in s[1..] by {
        assert forall i :: 0 <= i < |s| - 1 ==> s[1..][i] == s[i + 1];
      }
      IntendedOperatorsWithoutEquals(s[1..]);
      assert s == [s[0]] + s[1..];
    }
  }

  /** Operands around a comparison: text without `=` that does not end with
      `!`, `<` or `>`. */
  predicate PlainOperand(x: string) {
    '=' !in x && (x == [] || x[|x| - 1] !in "!<>")
  }

  /** The four comparison operators of the formulas between two plain
      operands, and what each becomes in PHP. */
  function PhpOperator(op: string): string {
    if op == "!=" then "!==" else if op == "=" then "==" else op
  }

  /** The one-pass rewrite turns each comparison into its PHP operator and
      leaves both operands alone. */
  lemma IntendedComparison(x: string, op: string, y: string)
    requires PlainOperand(x) && PlainOperand(y)
    requires op == "<=" || op == ">=" || op == "!=" || op == "="
    ensures IntendedOperators(x + op + y) == x + PhpOperator(op) + y
  {
    IntendedOperatorsWithoutEquals(x);
    IntendedOperatorsWithoutEquals(y);
    if y != [] { assert y[0] in y; }
    IntendedOperatorsAppend(x + op, y);
    assert op[0] != '=' ==> IntendedOperators(op) == PhpOperator(op) by {
      if op != "=" { assert [op[0], '='] == op && op[2..] == []; }
    }
    if op == "=" {
      assert IntendedOperators(op) == "==";
      IntendedOperatorsOperandThenEquals(x);
    } else {
      IntendedOperatorsAppend(x, op);
    }
  }

  /** A plain operand followed by `=` is rewritten to the operand and `==`. */
  lemma {:induction false} IntendedOperatorsOperandThenEquals(x: string)
    requires PlainOperand(x)
    ensures IntendedOperators(x + "=") == x + "=="
    decreases |x|
  {
    if x == [] {
      assert x + "=" == "=";
    } else {
      assert (x + "=")[1..] == x[1..] + "=";
      assert '=' !in x[1..] by {
        assert forall i :: 0 <= i < |x| - 1 ==> x[1..][i] == x[i + 1];
      }
      assert PlainOperand(x[1..]) by {
        if x[1..] != [] { assert x[1..][|x[1..]| - 1] == x[|x| - 1]; }
      }
      IntendedOperatorsOperandThenEquals(x[1..]);
      assert (x + "=")[0] == x[0];
      assert |x| == 1 ==> x[0] !in "!<>" && (x + "=")[1] == '=' by {
        if |x| == 1 { assert x[0] == x[|x| - 1]; }
      }
      assert |x| >= 2 ==> (x + "=")[1] == x[1] && x[1] != '=' by {
        if |x| >= 2 { assert x[1] in x; }
      }
    }
  }

  /** The doubling between two plain operands acts on the operator alone. */
  lemma DoubledEqualsAroundOperator(x: string, op: string, y: string)
    requires PlainOperand(x) && PlainOperand(y)
    requires op != [] && op[0] != '='
    ensures DoubledEquals(x + op + y, false) == x + DoubledEquals(op, false) + y
  {
    DoubledEqualsWithoutEquals(x, false);
    DoubledEqualsAppend(x + op, y, false);
    DoubledEqualsAppend(x, op, false);
    if y != [] { assert y[0] in y; }
    AfterBangIrrelevant(y);
    DoubledEqualsWithoutEquals(y, false);
  }

  /** A lone `=` after a plain operand: the operand is not `!`-terminated, so
      the `=` is doubled once. */
  lemma DoubledEqualsAroundEquals(x: string, y: string)
    requires PlainOperand(x) && PlainOperand(y)
    ensures DoubledEquals(x + "=" + y, false) == x + "==" + y
  {
    DoubledEqualsWithoutEquals(x, false);
    DoubledEqualsAppend(x + "=", y, false);
    DoubledEqualsAppend(x, "=", false);
    if y != [] { assert y[0] in y; }
    AfterBangIrrelevant(y);
    DoubledEqualsWithoutEquals(y, false);
    assert x == [] || x[|x| - 1] != '!';
    assert DoubledEquals("=", false) == "==";
  }

  /** What the doubling makes of each comparison operator. */
  lemma OperatorDoubled(op: string)
    requires op == "<=" || op == ">=" || op == "!="
    ensures DoubledEquals(op, false) == if op == "!=" then "!====" else op + "="
  {
    var rest := DoubledEquals(op[1..][1..], op[1] == '!');
    assert op[1..] == "=" && op[1..][1..] == [] && rest == [];
    assert DoubledEquals(op[1..], op[0] == '!') == (if op[0] == '!' then "====" else "==") + rest;
    assert DoubledEquals(op, false) == [op[0]] + DoubledEquals(op[1..], op[0] == '!');
  }

  /** The rewrite as written turns `<=` into `<==`, `>=` into `>==` and `!=`
      into `!====`: PHP reads none of them as an operator, so eval reports a
      syntax error. Only a lone `=` ends as intended. */
  lemma AsWrittenComparison(x: string, op: string, y: string)
    requires PlainOperand(x) && PlainOperand(y)
    requires op == "<=" || op == ">=" || op == "!=" || op == "="
    ensures RewriteOperators(x + op + y) == x + (if op == "!=" then "!====" else op + "=") + y
    ensures RewriteOperators(x + op + y) == IntendedOperators(x + op + y) <==> op == "="
  {
    AsWrittenRewrite(x, op, y);
    IntendedComparison(x, op, y);
    AsWrittenDiffers(x, op, y);
  }

  lemma AsWrittenRewrite(x: string, op: string, y: string)
    requires PlainOperand(x) && PlainOperand(y)
    requires op == "<=" || op == ">=" || op == "!=" || op == "="
    ensures RewriteOperators(x + op + y) == x + (if op == "!=" then "!====" else op + "=") + y
  {
    RewriteOperatorsDoubles(x + op + y);
    if op == "=" {
      DoubledEqualsAroundEquals(x, y);
    } else {
      OperatorDoubled(op);
      DoubledEqualsAroundOperator(x, op, y);
    }
  }

  lemma AsWrittenDiffers(x: string, op: string, y: string)
    requires op == "<=" || op == ">=" || op == "!=" || op == "="
    ensures x + (if op == "!=" then "!====" else op + "=") + y == x + PhpOperator(op) + y <==> op == "="
  {
    var w := if op == "!=" then "!====" else op + "=";
    if op != "=" {
      assert |x + w + y| != |x + PhpOperator(op) + y|;
    }
  }

  // ---------------------------------------------------------------------------
  // eval
  // ---------------------------------------------------------------------------

  /** What may be thrown: the two kinds of Exception the evaluator meets
      (InvalidArgumentException from safeEval, and any other Exception) and
      the two kinds of Error (ParseError, and any other Error such as
      DivisionByZeroError). */
  datatype Throwable =
    | InvalidArgument(message: string)
    | OtherException
    | ParseError(message: string)
    | OtherError

  /** Whether `catch (\Exception $e)` catches it. */
  predicate IsException(t: Throwable) {
    t.InvalidArgument? || t.OtherException?
  }

  /** What eval does with a piece of code: it returns a value, whose truth
      value the `(bool)` cast takes, or it throws. */
  datatype EvalResult = Returned(truthy: bool) | Threw(thrown: Throwable)

  /** A computation that returns a value or throws. */
  datatype Outcome<T> = Ok(value: T) | Thrown(thrown: Throwable)

  /** The code handed to eval. */
  function EvalCode(rewritten: string): string {
    "return (" + rewritten + ");"
  }

  /** safeEval($expression) with eval as the oracle `eval`. */
  function SafeEval(expression: string, eval: string -> EvalResult): (r: Outcome<bool>)
    ensures !Whitelisted(expression) ==> r.Thrown? && IsException(r.thrown)
    ensures r.Thrown? && !IsException(r.thrown) ==> r.thrown == OtherError
  {
    if !Whitelisted(expression) then Thrown(InvalidArgument("Expression contains invalid characters"))
    else match eval(EvalCode(RewriteOperators(expression)))
      case Returned(b) => Ok(b)
      case Threw(ParseError(m)) => Thrown(InvalidArgument("Invalid expression syntax: " + m))
      case Threw(t) => Thrown(t)
  }

  /** safeEval returns the oracle's answer on the rewritten expression when
      the expression passes the whitelist and eval returns; it throws an
      Exception (so the rule fires) when the whitelist fails, when eval reports
      a syntax error, or when eval throws an Exception; any other Error
      escapes. */
  lemma SafeEvalCases(expression: string, eval: string -> EvalResult)
    ensures SafeEval(expression, eval).Ok?
        <==> Whitelisted(expression) && eval(EvalCode(DoubledEquals(expression, false))).Returned?
    ensures SafeEval(expression, eval).Ok?
        ==> SafeEval(expression, eval).value == eval(EvalCode(DoubledEquals(expression, false))).truthy
    ensures (SafeEval(expression, eval).Thrown? && IsException(SafeEval(expression, eval).thrown))
        <==> !Whitelisted(expression)
             || (eval(EvalCode(DoubledEquals(expression, false))).Threw?
                 && (eval(EvalCode(DoubledEquals(expression, false))).thrown.ParseError?
                     || IsException(eval(EvalCode(DoubledEquals(expression, false))).thrown)))
    ensures (SafeEval(expression, eval).Thrown? && !IsException(SafeEval(expression, eval).thrown))
        <==> Whitelisted(expression) && eval(EvalCode(DoubledEquals(expression, false))) == Threw(OtherError)
  {
    RewriteOperatorsDoubles(expression);
    SafeEvalAnswer(expression, eval, eval(EvalCode(DoubledEquals(expression, false))));
  }

  /** safeEval once eval's answer for the rewritten expression is known. */
  lemma SafeEvalAnswer(expression: string, eval: string -> EvalResult, answer: EvalResult)
    requires eval(EvalCode(RewriteOperators(expression))) == answer
    ensures SafeEval(expression, eval).Ok? <==> Whitelisted(expression) && answer.Returned?
    ensures SafeEval(expression, eval).Ok? ==> SafeEval(expression, eval).value == answer.truthy
    ensures (SafeEval(expression, eval).Thrown? && IsException(SafeEval(expression, eval).thrown))
        <==> !Whitelisted(expression) || (answer.Threw? && (answer.thrown.ParseError? || IsException(answer.thrown)))
    ensures (SafeEval(expression, eval).Thrown? && !IsException(SafeEval(expression, eval).thrown))
        <==> Whitelisted(expression) && answer == Threw(OtherError)
  {
  }

}
