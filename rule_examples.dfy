/** How particular formulas go through the evaluator: the stored rules of
    database/seeders/ValidationRuleSeeder.php, and an AND call nested in an OR
    call. */
module RuleExamples {
  import opened PhpStrings
  import opened PregPatterns
  import opened FormValues
  import opened Dates
  import opened LogicalFunctions
  import opened ExpressionProcessing
  import opened SafeEvaluation
  import opened RuleEvaluator

  // ---------------------------------------------------------------------------
  // ISBLANK(Priority), ISBLANK(Email), ISBLANK(Phone), ISBLANK(Asset_Tag)
  // ---------------------------------------------------------------------------

  lemma BlankCallIsWord(field: string, form: FormData)
    requires field != [] && ')' !in field
    ensures IsBlankPass("ISBLANK" + "(" + field + ")", form) == BlankWord(form, field)
  {
    RewriteCallsSingleCall("ISBLANK", field, BlankCallback(form));
  }

  /** A word of lower-case ASCII letters, such as `true` and `false`. */
  predicate Lowercase(w: string)
  {
    forall i :: 0 <= i < |w| ==> 'a' <= w[i] <= 'z'
  }

  lemma LowercaseWord(word: string)
    requires word == "true" || word == "false"
    ensures Lowercase(word)
  {
    if word == "true" {
      assert word == ['t', 'r', 'u', 'e'];
    } else {
      assert word == ['f', 'a', 'l', 's', 'e'];
    }
  }

  lemma BooleanWordUntouched(word: string, form: FormData, today: Date)
    requires word == "true" || word == "false"
    requires forall k :: 0 <= k < |form| ==> form[k].0 != [] && 'A' <= form[k].0[0] <= 'Z'
    ensures LogicalPass(SubstituteFields(TodayPass(word, today), form)) == word
    ensures Whitelisted(word) && RewriteOperators(word) == word
  {
    LowercaseWord(word);
    LowercaseTextUntouched(word, form, today);
    LowercaseOperatorsUntouched(word);
  }

  /** Text of lower-case letters holds no operator to rewrite. */
  lemma LowercaseOperatorsUntouched(word: string)
    requires Lowercase(word)
    ensures RewriteOperators(word) == word
  {
    RewriteOperatorsDoubles(word);
    DoubledEqualsWithoutEquals(word, false);
  }

  /** Text of lower-case letters holds no call, no TODAY() and no capitalised
      field name. */
  lemma LowercaseTextUntouched(word: string, form: FormData, today: Date)
    requires Lowercase(word)
    requires forall k :: 0 <= k < |form| ==> form[k].0 != [] && 'A' <= form[k].0[0] <= 'Z'
    ensures LogicalPass(SubstituteFields(TodayPass(word, today), form)) == word
  {
    TodayPassAbsent(word, today);
    SubstituteFieldsAbsent(word, form);
    RewriteCallsAbsent(word, "AND", AndCallback);
    RewriteCallsAbsent(word, "OR", OrCallback);
  }

  lemma IsBlankRule(field: string, form: FormData, today: Date)
    requires field != [] && ')' !in field
    requires forall k :: 0 <= k < |form| ==> form[k].0 != [] && 'A' <= form[k].0[0] <= 'Z'
    ensures Processed("ISBLANK" + "(" + field + ")", form, today)
         == if IsBlank(form, Trim(field)) then "true" else "false"
    ensures Whitelisted(Processed("ISBLANK" + "(" + field + ")", form, today))
    ensures RewriteOperators(Processed("ISBLANK" + "(" + field + ")", form, today))
         == Processed("ISBLANK" + "(" + field + ")", form, today)
  {
    BlankCallIsWord(field, form);
    BooleanWordUntouched(BlankWord(form, field), form, today);
  }

  // ---------------------------------------------------------------------------
  // Estimated_Cost = 0
  // ---------------------------------------------------------------------------

  /** The formula of the stored "Estimated cost is required" rule. */
  function CostFormula(): string {
    "Estimated_Cost" + " = 0"
  }

  lemma CostFormulaChars()
    ensures CostFormula() == ['E', 's', 't', 'i', 'm', 'a', 't', 'e', 'd', '_', 'C', 'o', 's', 't', ' ', '=', ' ', '0']
    ensures forall i :: 0 <= i < |CostFormula()| ==> !('G' <= CostFormula()[i] <= 'Z') && CostFormula()[i] != 'A'
    ensures CostFormula()[9] == '_'
  {
    var s := CostFormula();
    assert s == ['E', 's', 't', 'i', 'm', 'a', 't', 'e', 'd', '_', 'C', 'o', 's', 't', ' ', '=', ' ', '0'];
  }

  lemma EqualsZeroDoubled()
    ensures DoubledEquals(" = 0", false) == " == 0"
  {
    assert " = 0" == [' ', '=', ' ', '0'];
    assert DoubledEquals([' ', '=', ' ', '0'][3..], false) == ['0'];
    assert DoubledEquals([' ', '=', ' ', '0'][2..], false) == [' ', '0'];
    assert DoubledEquals([' ', '=', ' ', '0'][1..], false) == ['=', '=', ' ', '0'];
  }

  /** The first two passes leave the formula alone. */
  lemma CostFormulaFirstPasses(form: FormData, today: Date)
    ensures TodayPass(IsBlankPass(CostFormula(), form), today) == CostFormula()
  {
    CostFormulaChars();
    assert 'I' !in CostFormula() && 'T' !in CostFormula();
    IsBlankPassAbsent(CostFormula(), form);
    TodayPassAbsent(CostFormula(), today);
  }

  lemma CostFieldSubstituted(v: int)
    ensures SubstituteFields(CostFormula(), [("Estimated_Cost", Int(v))]) == IntToString(v) + " = 0"
  {
    var form := [("Estimated_Cost", Int(v))];
    assert form[..0] == [];
    InsertedPlain(Int(v), "Estimated_Cost");
    ReplaceWordAtWord("Estimated_Cost", " = 0", IntToString(v), false);
    ReplaceWordCopies(" = 0", [], "Estimated_Cost", IntToString(v), true);
    assert " = 0" + [] == " = 0";
  }

  /** With an integer in Estimated_Cost, the formula becomes `v = 0`, which
      passes the whitelist and is rewritten to `v == 0`. */
  lemma CostProcessedWithValue(v: int, today: Date)
    ensures Processed(CostFormula(), [("Estimated_Cost", Int(v))], today) == IntToString(v) + " = 0"
    ensures Whitelisted(IntToString(v) + " = 0")
    ensures DoubledEquals(IntToString(v) + " = 0", false) == IntToString(v) + " == 0"
  {
    var form := [("Estimated_Cost", Int(v))];
    CostFormulaFirstPasses(form, today);
    CostFieldSubstituted(v);
    IntToStringChars(v);
    NumberComparison(IntToString(v), " = 0");
    CostComparisonDoubled(v);
  }

  lemma CostComparisonDoubled(v: int)
    ensures DoubledEquals(IntToString(v) + " = 0", false) == IntToString(v) + " == 0"
  {
    IntToStringChars(v);
    DoubledEqualsAppend(IntToString(v), " = 0", false);
    DoubledEqualsWithoutEquals(IntToString(v), false);
    EqualsZeroDoubled();
  }

  /** A number followed by text of spaces, digits and comparison signs holds
      no call and passes the whitelist. */
  lemma NumberComparison(lit: string, tail: string)
    requires forall i :: 0 <= i < |lit| ==> IsDigit(lit[i]) || lit[i] == '-'
    requires forall i :: 0 <= i < |tail| ==> tail[i] in " <>=0"
    requires lit != []
    ensures LogicalPass(lit + tail) == lit + tail
    ensures Whitelisted(lit + tail)
  {
    var e := lit + tail;
    NumberTextChars(lit, tail);
    assert 'A' !in e && 'O' !in e;
    RewriteCallsAbsent(e, "AND", AndCallback);
    RewriteCallsAbsent(e, "OR", OrCallback);
  }

  lemma NumberTextChars(lit: string, tail: string)
    requires forall i :: 0 <= i < |lit| ==> IsDigit(lit[i]) || lit[i] == '-'
    requires forall i :: 0 <= i < |tail| ==> tail[i] in " <>=0"
    ensures forall i :: 0 <= i < |lit + tail| ==> AllowedChar((lit + tail)[i]) && !('A' <= (lit + tail)[i] <= 'Z')
  {
    forall i | 0 <= i < |lit + tail|
      ensures AllowedChar((lit + tail)[i]) && !('A' <= (lit + tail)[i] <= 'Z')
    {
      if i < |lit| {
        assert (lit + tail)[i] == lit[i];
      } else {
        var c := tail[i - |lit|];
        assert (lit + tail)[i] == c;
        assert c == ' ' || c == '<' || c == '>' || c == '=' || c == '0';
      }
    }
  }

  /** eval is handed `return (v == 0);`, and the rule stays silent exactly
      when eval answers false. */
  lemma CostRuleWithValue(v: int, today: Date, eval: string -> EvalResult)
    ensures Verdict(CostFormula(), [("Estimated_Cost", Int(v))], today, eval) == Ok(false)
        <==> eval(EvalCode(IntToString(v) + " == 0")) == Returned(false)
  {
    CostProcessedWithValue(v, today);
    VerdictFailClosed(CostFormula(), [("Estimated_Cost", Int(v))], today, eval);
  }

  /** When no field name could match inside the formula (in particular when
      the form has no Estimated_Cost), the name stays in the formula, its
      underscore fails the whitelist, and the rule fires whatever eval does. */
  lemma CostRuleWithoutField(form: FormData, today: Date, eval: string -> EvalResult)
    requires forall k :: 0 <= k < |form| ==> form[k].0 != [] && form[k].0[0] !in CostFormula()
    ensures Processed(CostFormula(), form, today) == CostFormula()
    ensures Verdict(CostFormula(), form, today, eval) == Ok(true)
  {
    CostProcessedWithoutField(form, today);
    RejectedCharacters(CostFormula(), 9);
    VerdictFailClosed(CostFormula(), form, today, eval);
  }

  lemma CostProcessedWithoutField(form: FormData, today: Date)
    requires forall k :: 0 <= k < |form| ==> form[k].0 != [] && form[k].0[0] !in CostFormula()
    ensures Processed(CostFormula(), form, today) == CostFormula()
    ensures CostFormula()[9] == '_'
  {
    CostFormulaFirstPasses(form, today);
    SubstituteFieldsAbsent(CostFormula(), form);
    CostFormulaChars();
    RewriteCallsAbsent(CostFormula(), "AND", AndCallback);
    RewriteCallsAbsent(CostFormula(), "OR", OrCallback);
  }

  // ---------------------------------------------------------------------------
  // Purchase_Price <= 0
  // ---------------------------------------------------------------------------

  /** The formula of the stored "Purchase price must be greater than zero"
      rule. */
  function PriceFormula(): string {
    "Purchase_Price" + " <= 0"
  }

  lemma PriceFormulaChars()
    ensures forall i :: 0 <= i < |PriceFormula()| ==>
      PriceFormula()[i] != 'I' && PriceFormula()[i] != 'T'
  {
    var s := PriceFormula();
    assert s == ['P', 'u', 'r', 'c', 'h', 'a', 's', 'e', '_', 'P', 'r', 'i', 'c', 'e', ' ', '<', '=', ' ', '0'];
  }

  /** The first two passes leave the formula alone. */
  lemma PriceFormulaFirstPasses(form: FormData, today: Date)
    ensures TodayPass(IsBlankPass(PriceFormula(), form), today) == PriceFormula()
  {
    PriceFormulaChars();
    IsBlankPassAbsent(PriceFormula(), form);
    TodayPassAbsent(PriceFormula(), today);
  }

  lemma PriceFieldSubstituted(v: int)
    ensures SubstituteFields(PriceFormula(), [("Purchase_Price", Int(v))]) == IntToString(v) + " <= 0"
  {
    var form := [("Purchase_Price", Int(v))];
    assert form[..0] == [];
    InsertedPlain(Int(v), "Purchase_Price");
    ReplaceWordAtWord("Purchase_Price", " <= 0", IntToString(v), false);
    ReplaceWordCopies(" <= 0", [], "Purchase_Price", IntToString(v), true);
    assert " <= 0" + [] == " <= 0";
  }

  /** With an integer in Purchase_Price, the formula becomes `v <= 0`, which
      passes the whitelist. */
  lemma PriceProcessedWithValue(v: int, today: Date)
    ensures Processed(PriceFormula(), [("Purchase_Price", Int(v))], today) == IntToString(v) + " <= 0"
    ensures Whitelisted(IntToString(v) + " <= 0")
  {
    var form := [("Purchase_Price", Int(v))];
    PriceFormulaFirstPasses(form, today);
    PriceFieldSubstituted(v);
    IntToStringChars(v);
    NumberComparison(IntToString(v), " <= 0");
  }

  lemma PriceComparisonShape(lit: string)
    ensures lit + " <= 0" == (lit + " ") + "<=" + " 0"
    ensures lit + " <== 0" == (lit + " ") + ("<=" + "=") + " 0"
  {
  }

  /** The rewrite hands eval `v <== 0` where `v <= 0` was meant. */
  lemma PriceComparisonRewritten(v: int)
    ensures RewriteOperators(IntToString(v) + " <= 0") == IntToString(v) + " <== 0"
    ensures IntendedOperators(IntToString(v) + " <= 0") == IntToString(v) + " <= 0"
  {
    var lit := IntToString(v);
    IntToStringChars(v);
    assert PlainOperand(lit + " ") by {
      assert forall i :: 0 <= i < |lit| ==> (lit + " ")[i] == lit[i];
      assert '=' !in lit + " ";
    }
    assert PlainOperand(" 0") by {
      assert " 0" == [' ', '0'];
    }
    PriceComparisonShape(lit);
    AsWrittenComparison(lit + " ", "<=", " 0");
    IntendedComparison(lit + " ", "<=", " 0");
  }

  /** Whatever the price, eval is handed `return (v <== 0);`; since PHP
      rejects `<==` as a syntax error, the rule fires on every submission. */
  lemma PriceRuleAlwaysFires(v: int, today: Date, eval: string -> EvalResult)
    requires eval(EvalCode(IntToString(v) + " <== 0")).Threw?
    requires eval(EvalCode(IntToString(v) + " <== 0")).thrown.ParseError?
    ensures Verdict(PriceFormula(), [("Purchase_Price", Int(v))], today, eval) == Ok(true)
  {
    PriceProcessedWithValue(v, today);
    PriceComparisonRewritten(v);
    RewriteOperatorsDoubles(IntToString(v) + " <= 0");
    VerdictFailClosed(PriceFormula(), [("Purchase_Price", Int(v))], today, eval);
  }

  // ---------------------------------------------------------------------------
  // AND(Status = "Open", ISBLANK(Priority))
  // ---------------------------------------------------------------------------

  /** The stored rule's formula up to its ISBLANK call. */
  function StatusHead(): string {
    "AND" + "(" + "Status" + " = \"Open\"" + "," + " "
  }

  /** The formula of the stored "Priority required for open items" rule. */
  function StatusFormula(): string {
    StatusHead() + ("ISBLANK" + "(" + "Priority" + ")" + ")")
  }

  /** A form with a priority and a status, in that order. */
  function StatusForm(status: string, priority: Value): FormData {
    [("Priority", priority), ("Status", Str(status))]
  }

  /** A status of ASCII letters, digits and spaces. */
  predicate PlainStatus(v: string) {
    forall i :: 0 <= i < |v| ==> 'a' <= v[i] <= 'z' || 'A' <= v[i] <= 'Z' || '0' <= v[i] <= '9' || v[i] == ' '
  }

  lemma StatusHeadChars()
    ensures StatusHead() == ['A', 'N', 'D', '(', 'S', 't', 'a', 't', 'u', 's', ' ', '=', ' ', '"', 'O', 'p', 'e', 'n', '"', ',', ' ']
  {
  }

  lemma StatusHeadLacks()
    ensures 'I' !in StatusHead() && 'T' !in StatusHead() && 'P' !in StatusHead()
  {
    StatusHeadChars();
  }

  /** The ISBLANK pass: the call becomes the word for Priority. */
  lemma StatusBlankPass(form: FormData)
    ensures IsBlankPass(StatusFormula(), form) == StatusHead() + (BlankWord(form, "Priority") + ")")
  {
    StatusHeadLacks();
    assert "ISBLANK"[0] == 'I' && 'I' !in ")";
    assert "Priority" != [] && ')' !in "Priority";
    CallBetween(StatusHead(), "ISBLANK", "Priority", ")", BlankCallback(form));
  }

  /** The TODAY pass, and the substitution of Priority, change nothing. */
  lemma StatusSecondPasses(word: string, priority: Value, today: Date)
    requires word == "true" || word == "false"
    ensures TodayPass(StatusHead() + (word + ")"), today) == StatusHead() + (word + ")")
    ensures SubstituteField(StatusHead() + (word + ")"), ("Priority", priority)) == StatusHead() + (word + ")")
  {
    var a := StatusHead() + (word + ")");
    StatusHeadLacks();
    LowercaseWord(word);
    assert 'T' !in a && 'P' !in a;
    TodayPassAbsent(a, today);
    ReplaceWordCopies(a, [], "Priority", Inserted(priority, "Priority"), false);
    assert a + [] == a;
  }

  /** The substitution of Status by its literal. */
  lemma StatusSubstituted(v: string, word: string)
    requires PlainStatus(v)
    requires word == "true" || word == "false"
    ensures SubstituteField(StatusHead() + (word + ")"), ("Status", Str(v)))
         == "AND" + "(" + ("'" + v + "'" + (" = \"Open\"" + "," + " " + (word + ")")))
  {
    var rest := " = \"Open\"" + "," + " " + (word + ")");
    assert StatusHead() + (word + ")") == "AND" + "(" + ("Status" + rest);
    assert 'S' !in rest && rest[0] == ' ' by {
      LowercaseWord(word);
    }
    StatusLiteral(v);
    StatusReplaced("'" + v + "'", rest);
  }

  /** The one whole-word Status, after `AND(`, is replaced. */
  lemma StatusReplaced(q: string, rest: string)
    requires 'S' !in rest && rest != [] && rest[0] == ' '
    ensures ReplaceWord("AND" + "(" + ("Status" + rest), "Status", q, false) == "AND" + "(" + (q + rest)
  {
    var open := "AND" + "(";
    assert open == ['A', 'N', 'D', '('];
    assert 'S' !in open && !IsWordChar(open[|open| - 1]);
    ReplaceWordCopies(open, "Status" + rest, "Status", q, false);
    ReplaceWordAtWord("Status", rest, q, false);
    ReplaceWordCopies(rest, [], "Status", q, true);
    assert rest + [] == rest;
  }

  /** A plain status is written between single quotes as it is. */
  lemma StatusLiteral(v: string)
    requires PlainStatus(v)
    ensures Inserted(Str(v), "Status") == "'" + v + "'"
  {
    InsertedStringEscapes(v, "Status");
  }

  lemma {:induction false} SubstituteStatusForm(e: string, v: string, priority: Value)
    ensures SubstituteFields(e, StatusForm(v, priority))
         == SubstituteField(SubstituteField(e, ("Priority", priority)), ("Status", Str(v)))
  {
    var form := StatusForm(v, priority);
    var first := form[..1];
    assert first[..0] == [] && first[0] == ("Priority", priority);
    assert SubstituteFields(e, first) == SubstituteField(e, ("Priority", priority));
    assert form[..|form| - 1] == first && form[|form| - 1] == ("Status", Str(v));
  }

  /** The substituted formula is `AND(part1,part2)`. */
  lemma StatusRegroup(q: string, word: string)
    ensures "AND" + "(" + (q + (" = \"Open\"" + "," + " " + (word + ")")))
         == "AND" + "(" + Implode(",", [q + " = \"Open\"", " " + word]) + ")"
  {
    ImplodePair(",", q + " = \"Open\"", " " + word);
    StatusRegroupTail(q, " = \"Open\"", word);
  }

  lemma StatusRegroupTail(q: string, t: string, word: string)
    ensures "AND" + "(" + (q + (t + "," + " " + (word + ")")))
         == "AND" + "(" + (q + t + "," + (" " + word)) + ")"
  {
  }

  /** The first condition: the quoted status compared with "Open". It holds
      no comma and no parenthesis, and trim() keeps it. */
  lemma StatusFirstPart(v: string)
    requires PlainStatus(v)
    ensures ',' !in "'" + v + "'" + " = \"Open\""
    ensures ')' !in "'" + v + "'" + " = \"Open\""
    ensures '(' !in "'" + v + "'" + " = \"Open\""
  {
    var q := "'" + v + "'";
    assert ',' !in q && ')' !in q && '(' !in q;
    assert " = \"Open\"" == [' ', '=', ' ', '"', 'O', 'p', 'e', 'n', '"'];
  }

  /** A text that starts with `'` and ends with `"` is left alone by trim()
      and is not empty(). */
  lemma QuotedUntrimmed(e: string)
    requires |e| >= 2 && e[0] == '\'' && e[|e| - 1] == '"'
    ensures Trim(e) == e && !IsEmpty(Str(e))
  {
    TrimUntouched(e);
    LongNotEmpty(e);
  }

  lemma QuotedEnds(q: string, t: string)
    requires q != [] && q[0] == '\''
    requires t != [] && t[|t| - 1] == '"'
    ensures |q + t| >= 2 && (q + t)[0] == '\'' && (q + t)[|q + t| - 1] == '"'
  {
  }

  /** A string of two or more characters is neither `""` nor `"0"`. */
  lemma LongNotEmpty(s: string)
    requires |s| >= 2
    ensures !IsEmpty(Str(s))
  {
    assert |"0"| == 1;
  }

  lemma LowercaseTrimmed(w: string)
    requires w != [] && Lowercase(w)
    ensures Trim(" " + w) == w && !IsEmpty(Str(w))
  {
    TrimLeadingSpace(w);
    assert w[0] != '0';
  }

  /** The second condition: a lower-case word after a space. */
  lemma StatusSecondPart(word: string)
    requires Lowercase(word)
    ensures ',' !in " " + word && ')' !in " " + word && '(' !in " " + word
  {
    assert " " == [' '];
  }

  /** processLogicalFunctions on the substituted formula. */
  lemma StatusLogicalPass(v: string, word: string)
    requires PlainStatus(v)
    requires word != [] && Lowercase(word)
    ensures LogicalPass("AND" + "(" + ("'" + v + "'" + (" = \"Open\"" + "," + " " + (word + ")"))))
         == "(" + ("'" + v + "'" + " = \"Open\"") + ")" + " && " + "(" + word + ")"
  {
    var q := "'" + v + "'";
    var part1, part2 := q + " = \"Open\"", " " + word;
    LowercaseTrimmed(word);
    StatusSecondPart(word);
    StatusRegroup(q, word);
    StatusFirstTrimmed(v);
    StatusFirstPart(v);
    StatusAndOfParts(part1, part2);
  }

  /** trim() keeps the first condition and drops the space before the
      second. */
  lemma StatusFirstTrimmed(v: string)
    ensures Trim("'" + v + "'" + " = \"Open\"") == "'" + v + "'" + " = \"Open\""
    ensures !IsEmpty(Str("'" + v + "'" + " = \"Open\""))
  {
    var t := " = \"Open\"";
    assert t == [' ', '=', ' ', '"', 'O', 'p', 'e', 'n', '"'];
    QuotedEnds("'" + v + "'", t);
    QuotedUntrimmed("'" + v + "'" + t);
  }

  lemma StatusAndOfParts(part1: string, part2: string)
    requires ',' !in part1 && ')' !in part1 && '(' !in part1 && !IsEmpty(Str(Trim(part1)))
    requires ',' !in part2 && ')' !in part2 && '(' !in part2 && !IsEmpty(Str(Trim(part2)))
    ensures LogicalPass("AND" + "(" + Implode(",", [part1, part2]) + ")")
         == "(" + Trim(part1) + ")" + " && " + "(" + Trim(part2) + ")"
  {
    PairConditionsReady(part1, part2);
    AndOfConditions([part1, part2]);
    JoinedPair(part1, part2);
  }

  lemma PairConditionsReady(part1: string, part2: string)
    requires ',' !in part1 && ')' !in part1 && '(' !in part1 && !IsEmpty(Str(Trim(part1)))
    requires ',' !in part2 && ')' !in part2 && '(' !in part2 && !IsEmpty(Str(Trim(part2)))
    ensures forall k :: 0 <= k < |[part1, part2]| ==> ',' !in [part1, part2][k] && ')' !in [part1, part2][k]
    ensures forall k :: 0 <= k < |[part1, part2]| ==> CallFree([part1, part2][k], "OR")
    ensures forall k :: 0 <= k < |[part1, part2]| ==> !IsEmpty(Str(Trim([part1, part2][k])))
  {
    CallFreeWithoutOpen(part1, "OR");
    CallFreeWithoutOpen(part2, "OR");
  }

  lemma JoinedPair(a: string, b: string)
    ensures Implode(" && ", Wrap(TrimAll([a, b]))) == "(" + Trim(a) + ")" + " && " + "(" + Trim(b) + ")"
  {
    JoinedPairWith(" && ", a, b);
  }

  lemma JoinedPairWith(glue: string, a: string, b: string)
    ensures Implode(glue, Wrap(TrimAll([a, b]))) == "(" + Trim(a) + ")" + glue + "(" + Trim(b) + ")"
  {
    var x, y := "(" + Trim(a) + ")", "(" + Trim(b) + ")";
    WrapTrimAllPair(a, b);
    ImplodePair(glue, x, y);
    var p, tb := x + glue, Trim(b);
    AppendAssociative(p, "(" + tb, ")");
    AppendAssociative(p, "(", tb);
  }

  /** With a plain status, the stored rule becomes the status comparison and
      the Priority word, each parenthesised and joined by `&&`. */
  lemma StatusProcessed(v: string, priority: Value, today: Date)
    requires PlainStatus(v)
    ensures Processed(StatusFormula(), StatusForm(v, priority), today)
         == "(" + ("'" + v + "'" + " = \"Open\"") + ")" + " && " + "("
            + (if IsBlank(StatusForm(v, priority), "Priority") then "true" else "false") + ")"
  {
    var form := StatusForm(v, priority);
    var word := BlankWord(form, "Priority");
    PriorityWord(form);
    var a := StatusHead() + (word + ")");
    StatusBlankPass(form);
    StatusSecondPasses(word, priority, today);
    SubstituteStatusForm(a, v, priority);
    StatusSubstituted(v, word);
    LowercaseWord(word);
    StatusLogicalPass(v, word);
  }

  lemma PriorityWord(form: FormData)
    ensures BlankWord(form, "Priority") == if IsBlank(form, "Priority") then "true" else "false"
  {
    var p := "Priority";
    assert p == ['P', 'r', 'i', 'o', 'r', 'i', 't', 'y'];
    BlankWordUntrimmed(form, p);
  }

  lemma BlankWordUntrimmed(form: FormData, field: string)
    requires field != [] && !IsTrimChar(field[0]) && !IsTrimChar(field[|field| - 1])
    ensures BlankWord(form, field) == if IsBlank(form, field) then "true" else "false"
  {
    TrimUntouched(field);
  }

  /** The processed rule, cut around its one `=`. */
  lemma StatusTextShape(v: string, word: string)
    ensures "(" + ("'" + v + "'" + " = \"Open\"") + ")" + " && " + "(" + word + ")"
         == ("('" + v + "' ") + "=" + (" \"Open\") && (" + word + ")")
  {
  }

  lemma AllowedAppend(a: string, b: string)
    requires forall i :: 0 <= i < |a| ==> AllowedChar(a[i])
    requires forall i :: 0 <= i < |b| ==> AllowedChar(b[i])
    ensures forall i :: 0 <= i < |a + b| ==> AllowedChar((a + b)[i])
  {
    forall i | 0 <= i < |a + b|
      ensures AllowedChar((a + b)[i])
    {
      if i < |a| {
        assert (a + b)[i] == a[i];
      } else {
        assert (a + b)[i] == b[i - |a|];
      }
    }
  }

  /** Both sides of the `=` are plain operands made of allowed characters. */
  lemma StatusOperands(v: string, word: string)
    requires PlainStatus(v) && Lowercase(word)
    ensures PlainOperand("('" + v + "' ") && PlainOperand(" \"Open\") && (" + word + ")")
    ensures forall i :: 0 <= i < |"('" + v + "' "| ==> AllowedChar(("('" + v + "' ")[i])
    ensures forall i :: 0 <= i < |" \"Open\") && (" + word + ")"| ==> AllowedChar((" \"Open\") && (" + word + ")")[i])
  {
    var open, close := "('", "' ";
    assert open == ['(', '\''] && close == ['\'', ' '];
    var lead, tail := " \"Open\") && (", ")";
    assert lead == [' ', '"', 'O', 'p', 'e', 'n', '"', ')', ' ', '&', '&', ' ', '('] && tail == [')'];
    assert forall i :: 0 <= i < |v| ==> AllowedChar(v[i]) && v[i] != '=';
    assert forall i :: 0 <= i < |word| ==> AllowedChar(word[i]) && word[i] != '=';
    AllowedAppend(open, v);
    AllowedAppend(open + v, close);
    AllowedAppend(lead, word);
    AllowedAppend(lead + word, tail);
    assert forall i :: 0 <= i < |open + v + close| ==> (open + v + close)[i] != '=' by {
      forall i | 0 <= i < |open + v + close|
        ensures (open + v + close)[i] != '='
      {
        if i < |open + v| {
          if i >= |open| { assert (open + v)[i] == v[i - |open|]; }
        }
      }
    }
    assert forall i :: 0 <= i < |lead + word + tail| ==> (lead + word + tail)[i] != '=' by {
      forall i | 0 <= i < |lead + word + tail|
        ensures (lead + word + tail)[i] != '='
      {
        if i < |lead + word| {
          if i >= |lead| { assert (lead + word)[i] == word[i - |lead|]; }
        }
      }
    }
  }

  /** The processed rule passes the whitelist, and its one `=` is doubled. */
  lemma StatusTextRewritten(v: string, word: string)
    requires PlainStatus(v) && Lowercase(word)
    ensures Whitelisted("(" + ("'" + v + "'" + " = \"Open\"") + ")" + " && " + "(" + word + ")")
    ensures DoubledEquals("(" + ("'" + v + "'" + " = \"Open\"") + ")" + " && " + "(" + word + ")", false)
         == ("('" + v + "' ") + "==" + (" \"Open\") && (" + word + ")")
  {
    var x, y := "('" + v + "' ", " \"Open\") && (" + word + ")";
    StatusTextShape(v, word);
    StatusOperands(v, word);
    AllowedAppend(x, "=");
    AllowedAppend(x + "=", y);
    DoubledEqualsAroundEquals(x, y);
  }

  /** With a plain status, the rule passes the whitelist, eval is handed
      `('v' == "Open") && (w)` with w the ISBLANK(Priority) word, and the rule
      stays silent exactly when eval answers false. */
  lemma StatusRuleVerdict(v: string, priority: Value, today: Date, eval: string -> EvalResult)
    requires PlainStatus(v)
    ensures var word := if IsBlank(StatusForm(v, priority), "Priority") then "true" else "false";
      Verdict(StatusFormula(), StatusForm(v, priority), today, eval) == Ok(false)
      <==> eval(EvalCode(("('" + v + "' ") + "==" + (" \"Open\") && (" + word + ")"))) == Returned(false)
  {
    var word := if IsBlank(StatusForm(v, priority), "Priority") then "true" else "false";
    StatusProcessed(v, priority, today);
    LowercaseWord(word);
    StatusTextRewritten(v, word);
    VerdictFailClosed(StatusFormula(), StatusForm(v, priority), today, eval);
  }

  // ---------------------------------------------------------------------------
  // OR(AND(a,b),c)
  // ---------------------------------------------------------------------------

  lemma ImplodePair(glue: string, x: string, y: string)
    ensures Implode(glue, [x, y]) == x + glue + y
  {
    assert [x, y][1..] == [y];
  }

  lemma WrapTrimAllPair(a: string, b: string)
    ensures Wrap(TrimAll([a, b])) == ["(" + Trim(a) + ")", "(" + Trim(b) + ")"]
  {
    TrimAllPair(a, b);
    WrapPair(Trim(a), Trim(b));
  }

  lemma TrimAllPair(a: string, b: string)
    ensures TrimAll([a, b]) == [Trim(a), Trim(b)]
  {
    var p := [a, b];
    var t := TrimAll(p);
    assert |t| == 2;
    assert t[0] == Trim(p[0]) && t[1] == Trim(p[1]);
    assert p[0] == a && p[1] == b;
    assert t == [t[0], t[1]];
  }

  lemma WrapPair(x: string, y: string)
    ensures Wrap([x, y]) == ["(" + x + ")", "(" + y + ")"]
  {
    var w := Wrap([x, y]);
    assert w[0] == "(" + x + ")" && w[1] == "(" + y + ")";
  }

  /** AND(a,b) with two plain conditions. */
  lemma AndOfTwo(a: string, b: string)
    requires ',' !in a && ')' !in a && !IsEmpty(Str(Trim(a)))
    requires ',' !in b && ')' !in b && !IsEmpty(Str(Trim(b)))
    ensures AndCallback(a + "," + b) == "(" + Trim(a) + ")" + " && " + "(" + Trim(b) + ")"
  {
    ImplodePair(",", a, b);
    AndOfPair(a, b);
    WrapTrimAllPair(a, b);
    ImplodePair(" && ", "(" + Trim(a) + ")", "(" + Trim(b) + ")");
  }

  lemma AndOfPair(a: string, b: string)
    requires ',' !in a && ')' !in a && !IsEmpty(Str(Trim(a)))
    requires ',' !in b && ')' !in b && !IsEmpty(Str(Trim(b)))
    ensures AndCallback(Implode(",", [a, b])) == Implode(" && ", Wrap(TrimAll([a, b])))
  {
    PairConditions(a, b);
    JoinedCommaList([a, b], " && ");
  }

  /** Two conditions meet, as a list, what the callback asks of each. */
  lemma PairConditions(a: string, b: string)
    requires ',' !in a && ')' !in a && !IsEmpty(Str(Trim(a)))
    requires ',' !in b && ')' !in b && !IsEmpty(Str(Trim(b)))
    ensures forall k :: 0 <= k < |[a, b]| ==> ',' !in [a, b][k] && ')' !in [a, b][k]
    ensures forall k :: 0 <= k < |[a, b]| ==> !IsEmpty(Str(Trim([a, b][k])))
  {
    forall k | 0 <= k < |[a, b]|
      ensures [a, b][k] == a || [a, b][k] == b
    {
    }
  }

  /** OR(p) with one plain condition. */
  lemma OrOfOne(p: string)
    requires ',' !in p && ')' !in p && !IsEmpty(Str(Trim(p)))
    ensures OrCallback(p) == "(" + Trim(p) + ")"
  {
    assert Implode(",", [p]) == p;
    JoinedCommaList([p], " || ");
    var w := Wrap(TrimAll([p]));
    assert TrimAll([p])[0] == Trim(p);
    assert |w| == 1 && w[0] == "(" + Trim(p) + ")";
  }

  /** `a,b` is a non-empty argument without `)`. */
  lemma PairArgument(a: string, b: string)
    requires ')' !in a && ')' !in b
    ensures a + "," + b != [] && ')' !in a + "," + b
  {
    assert |a + "," + b| == |a| + 1 + |b|;
  }

  /** A call standing between text the scan copies: only the call is
      rewritten. */
  lemma CallBetween(before: string, name: string, arg: string, after: string, f: string -> string)
    requires name != [] && name[0] !in before && name[0] !in after
    requires arg != [] && ')' !in arg
    ensures RewriteCalls(before + (name + "(" + arg + ")" + after), name, f) == before + (f(arg) + after)
  {
    RewriteCallsAtCall(name, arg, after, f);
    RewriteCallsAbsent(after, name, f);
    RewriteCallsCopies(before, name + "(" + arg + ")" + after, name, f);
  }

  /** The AND pass over `OR(AND(x),c)` rewrites only the inner call. */
  lemma AndPassInsideOr(inner: string, joined: string, c: string)
    requires inner != [] && ')' !in inner
    requires AndCallback(inner) == joined
    requires 'A' !in c
    ensures RewriteCalls("OR" + "(" + ("AND" + "(" + inner + ")" + ("," + c + ")")), "AND", AndCallback)
         == "OR" + "(" + (joined + ("," + c + ")"))
  {
    OrOpenLacksA();
    CommaTailAvoids('A', c);
    CallBetween("OR" + "(", "AND", inner, "," + c + ")", AndCallback);
  }

  lemma OrOpenLacksA()
    ensures "AND"[0] == 'A' && 'A' !in "OR" + "("
  {
    assert "OR" + "(" == ['O', 'R', '('];
  }

  lemma CommaTailAvoids(ch: char, c: string)
    requires ch != ',' && ch != ')' && ch !in c
    ensures ch !in "," + c + ")"
  {
    assert "," == [','] && ")" == [')'];
  }

  /** OR(`(t`) with t a trimmed condition: the argument is kept whole and
      parenthesised. */
  lemma OrOfOpened(t: string)
    requires t != [] && ',' !in t && ')' !in t && !IsTrimChar(t[|t| - 1])
    ensures OrCallback("(" + t) == "(" + ("(" + t) + ")"
  {
    var arg := "(" + t;
    assert ',' !in arg && ')' !in arg by {
      AbsentAfterParen(t, ',');
      AbsentAfterParen(t, ')');
    }
    assert Trim(arg) == arg by {
      assert arg[0] == '(' && arg[|arg| - 1] == t[|t| - 1];
      assert TrimLeft(arg) == arg;
      assert TrimRight(arg) == arg;
    }
    ParenNotEmpty(t);
    OrOfOne(arg);
  }

  /** The OR pass over `OR(x)rest`, with no `O` in rest, rewrites that one
      call. */
  lemma OrPassAtStart(arg: string, rest: string)
    requires arg != [] && ')' !in arg && 'O' !in rest
    ensures RewriteCalls("OR" + "(" + arg + ")" + rest, "OR", OrCallback) == OrCallback(arg) + rest
  {
    RewriteCallsAtCall("OR", arg, rest, OrCallback);
    RewriteCallsAbsent(rest, "OR", OrCallback);
  }

  lemma ParenNotEmpty(t: string)
    ensures !IsEmpty(Str("(" + t))
  {
    assert ("(" + t)[0] == '(';
  }

  lemma AbsentAfterParen(t: string, ch: char)
    requires ch != '(' && ch !in t
    ensures ch !in "(" + t
  {
    assert "(" == ['('];
  }

  lemma AbsentFromRest(tb: string, tail: string)
    requires 'O' !in tb && 'O' !in tail
    ensures 'O' !in " && " + "(" + tb + ")" + tail
  {
    assert " && " + "(" == [' ', '&', '&', ' ', '('];
    assert ")" == [')'];
  }

  /** A condition that is not empty once trimmed: its trimmed form is not
      empty, ends in a character trim keeps, and holds no character the
      condition lacks. */
  lemma TrimmedCondition(a: string)
    requires ',' !in a && ')' !in a && !IsEmpty(Str(Trim(a)))
    ensures Trim(a) != [] && ',' !in Trim(a) && ')' !in Trim(a)
    ensures !IsTrimChar(Trim(a)[|Trim(a)| - 1])
  {
    TrimKeepsAbsent(a, ',');
    TrimKeepsAbsent(a, ')');
  }

  /** How the texts of the nested example split into the pieces the scanning
      lemmas speak of. */
  lemma NestedShapes(a: string, b: string, c: string, ta: string, tb: string)
    ensures "OR" + "(" + "AND" + "(" + a + "," + b + ")" + "," + c + ")"
         == "OR" + "(" + ("AND" + "(" + (a + "," + b) + ")" + ("," + c + ")"))
    ensures "OR" + "(" + (("(" + ta + ")" + " && " + "(" + tb + ")") + ("," + c + ")"))
         == "OR" + "(" + ("(" + ta) + ")" + (" && " + "(" + tb + ")" + ("," + c + ")"))
    ensures "(" + ("(" + ta) + ")" + (" && " + "(" + tb + ")" + ("," + c + ")"))
         == "(" + "(" + ta + ")" + " && " + "(" + tb + ")" + "," + c + ")"
  {
  }

  /** An AND nested as the first argument of an OR is not evaluated as a
      nested call: the OR capture stops at the `)` that closes the first AND
      condition, and the text keeps the comma of the OR arguments, which the
      whitelist rejects. `OR(AND(a,b),c)` becomes `((a) && (b),c)`. */
  lemma NestedAndInOr(a: string, b: string, c: string)
    requires ',' !in a && ')' !in a && !IsEmpty(Str(Trim(a)))
    requires ',' !in b && ')' !in b && 'O' !in b && !IsEmpty(Str(Trim(b)))
    requires 'A' !in c && 'O' !in c
    ensures LogicalPass("OR" + "(" + "AND" + "(" + a + "," + b + ")" + "," + c + ")")
         == "(" + "(" + Trim(a) + ")" + " && " + "(" + Trim(b) + ")" + "," + c + ")"
    ensures !Whitelisted(LogicalPass("OR" + "(" + "AND" + "(" + a + "," + b + ")" + "," + c + ")"))
  {
    var ta, tb := Trim(a), Trim(b);
    var formula := "OR" + "(" + "AND" + "(" + a + "," + b + ")" + "," + c + ")";
    var tail := "," + c + ")";
    var joined := "(" + ta + ")" + " && " + "(" + tb + ")";
    var arg, rest := "(" + ta, " && " + "(" + tb + ")" + tail;
    NestedShapes(a, b, c, ta, tb);
    var afterAnd := RewriteCalls(formula, "AND", AndCallback);
    assert afterAnd == "OR" + "(" + (joined + tail) by {
      AndOfTwo(a, b);
      PairArgument(a, b);
      AndPassInsideOr(a + "," + b, joined, c);
    }
    assert afterAnd == "OR" + "(" + arg + ")" + rest;
    assert RewriteCalls(afterAnd, "OR", OrCallback) == "(" + arg + ")" + rest by {
      TrimmedCondition(a);
      TrimKeepsAbsent(b, 'O');
      CommaTailAvoids('O', c);
      AbsentFromRest(tb, tail);
      assert arg != [] && ')' !in arg by {
        AbsentAfterParen(ta, ')');
      }
      OrPassAtStart(arg, rest);
      OrOfOpened(ta);
    }
    CommaAfterConditions(ta, tb, c);
  }

  lemma CommaAfterConditions(ta: string, tb: string, c: string)
    ensures !Whitelisted("(" + "(" + ta + ")" + " && " + "(" + tb + ")" + "," + c + ")")
  {
    var r := "(" + "(" + ta + ")" + " && " + "(" + tb + ")" + "," + c + ")";
    var k := |ta| + |tb| + 9;
    assert r[k] == ',';
    RejectedCharacters(r, k);
  }
}
