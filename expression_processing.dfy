/** processExpression: the three substitution passes over a rule's formula,
    followed by the AND/OR rewriting.

    1. every `ISBLANK(x)` becomes `true` or `false`;
    2. every `TODAY()` becomes the quoted current date;
    3. for each form entry in array order, whole-word occurrences of its name
       become the entry's literal, as preg_replace reads it;
    4. processLogicalFunctions. */
module ExpressionProcessing {
  import opened Wrappers
  import opened PhpStrings
  import opened PregPatterns
  import opened FormValues
  import opened Dates
  import opened LogicalFunctions

  // ---------------------------------------------------------------------------
  // ISBLANK(x)
  // ---------------------------------------------------------------------------

  /** The ISBLANK callback: the captured text is trimmed and looked up. */
  function BlankWord(form: FormData, arg: string): string {
    if IsBlank(form, Trim(arg)) then "true" else "false"
  }

  function BlankCallback(form: FormData): string -> string {
    arg => BlankWord(form, arg)
  }

  /** preg_replace_callback('/ISBLANK\(([^)]+)\)/', ...). */
  function IsBlankPass(expression: string, form: FormData): string {
    RewriteCalls(expression, "ISBLANK", BlankCallback(form))
  }

  /** A call `ISBLANK(x)` at the scan position becomes `true` exactly when the
      field named trim(x) is missing, null or PHP-empty, and `false` otherwise;
      the scan goes on after the closing parenthesis. */
  lemma IsBlankPassAtCall(form: FormData, arg: string, rest: string)
    requires arg != [] && ')' !in arg
    ensures IsBlankPass("ISBLANK" + "(" + arg + ")" + rest, form)
         == (if Lookup(form, Trim(arg)) in {None, Some(Null), Some(Bool(false)), Some(Int(0)), Some(Str("")), Some(Str("0"))}
             then "true" else "false")
            + IsBlankPass(rest, form)
  {
    RewriteCallsAtCall("ISBLANK", arg, rest, BlankCallback(form));
    IsBlankCases(form, Trim(arg));
  }

  /** Text without an `I` has no ISBLANK call and is left alone. */
  lemma IsBlankPassAbsent(expression: string, form: FormData)
    requires 'I' !in expression
    ensures IsBlankPass(expression, form) == expression
  {
    RewriteCallsAbsent(expression, "ISBLANK", BlankCallback(form));
  }

  // ---------------------------------------------------------------------------
  // TODAY()
  // ---------------------------------------------------------------------------

  /** The text that replaces TODAY(): the date in Y-m-d form between single
      quotes. */
  function TodayLiteral(today: Date): string {
    "'" + FormatYmd(today) + "'"
  }

  /** preg_replace_callback('/TODAY\(\)/', ...): the pattern is a fixed text,
      so this is a plain replacement of every occurrence. */
  function TodayPass(expression: string, today: Date): string {
    StrReplace(expression, "TODAY()", TodayLiteral(today))
  }

  /** The pass cuts the formula at its TODAY() occurrences and puts the date
      literal in each cut: the text between occurrences is kept as it is, since
      gluing the same pieces with TODAY() gives the formula back. */
  lemma TodayPassReplacesEveryCall(expression: string, today: Date)
    ensures TodayPass(expression, today) == Implode(TodayLiteral(today), Explode("TODAY()", expression))
    ensures Implode("TODAY()", Explode("TODAY()", expression)) == expression
  {
    StrReplaceIsImplodeExplode(expression, "TODAY()", TodayLiteral(today));
    ImplodeExplode(expression, "TODAY()");
  }

  /** A TODAY() at the scan position is replaced and the rest is scanned. */
  lemma TodayPassAtCall(rest: string, today: Date)
    ensures TodayPass("TODAY()" + rest, today) == TodayLiteral(today) + TodayPass(rest, today)
  {
    assert ("TODAY()" + rest)[|"TODAY()"|..] == rest;
  }

  /** Text without a `T` is left alone. */
  lemma TodayPassAbsent(expression: string, today: Date)
    requires 'T' !in expression
    ensures TodayPass(expression, today) == expression
  {
    StrReplaceAbsent(expression, "TODAY()", TodayLiteral(today));
  }

  /** The date literal is quoted, holds only digits and `-` inside the quotes,
      and reads back as the date. */
  lemma TodayLiteralRoundTrip(today: Date)
    ensures |TodayLiteral(today)| >= 2
    ensures TodayLiteral(today)[0] == '\'' && TodayLiteral(today)[|TodayLiteral(today)| - 1] == '\''
    ensures forall i :: 1 <= i < |TodayLiteral(today)| - 1 ==> IsDigit(TodayLiteral(today)[i]) || TodayLiteral(today)[i] == '-'
    ensures ParseYmd(TodayLiteral(today)[1..|TodayLiteral(today)| - 1]) == Some(today)
  {
    var l := TodayLiteral(today);
    assert l[1..|l| - 1] == FormatYmd(today);
    forall i | 1 <= i < |l| - 1
      ensures IsDigit(l[i]) || l[i] == '-'
    {
      assert l[i] == FormatYmd(today)[i - 1];
    }
    FormatYmdRoundTrip(today);
  }

  // ---------------------------------------------------------------------------
  // Field substitution
  // ---------------------------------------------------------------------------

  /** preg_replace('/\b' . preg_quote(name, '/') . '\b/', literal, e) for one
      form entry: every whole-word occurrence of the name becomes what
      preg_replace writes for the literal. */
  function SubstituteField(expression: string, entry: (string, Value)): string {
    ReplaceWord(expression, entry.0, Inserted(entry.1, entry.0), false)
  }

  /** The foreach over the form: one substitution per entry, in array order,
      each working on the previous one's output. */
  function SubstituteFields(expression: string, form: FormData): string
    decreases |form|
  {
    if form == [] then expression
    else SubstituteField(SubstituteFields(expression, form[..|form| - 1]), form[|form| - 1])
  }

  /** One more entry of the form is one more substitution. */
  lemma SubstituteFieldsPrefix(expression: string, form: FormData, k: nat)
    requires k < |form|
    ensures SubstituteFields(expression, form[..k + 1]) == SubstituteField(SubstituteFields(expression, form[..k]), form[k])
  {
    assert form[..k + 1][..k] == form[..k];
  }

  /** Substituting the entries of two consecutive parts of the form is
      substituting the first part and then the second. */
  lemma {:induction false} SubstituteFieldsAppend(expression: string, first: FormData, second: FormData)
    ensures SubstituteFields(expression, first + second)
         == SubstituteFields(SubstituteFields(expression, first), second)
    decreases |second|
  {
    if second == [] {
      assert first + second == first;
    } else {
      var n := |second|;
      assert (first + second)[..|first + second| - 1] == first + second[..n - 1];
      assert (first + second)[|first + second| - 1] == second[n - 1];
      SubstituteFieldsAppend(expression, first, second[..n - 1]);
    }
  }

  /** A formula in which no field name's first character occurs is not
      changed by the substitution. */
  lemma {:induction false} SubstituteFieldsAbsent(expression: string, form: FormData)
    requires forall k :: 0 <= k < |form| ==> form[k].0 != [] && form[k].0[0] !in expression
    ensures SubstituteFields(expression, form) == expression
    decreases |form|
  {
    if form != [] {
      var n := |form|;
      SubstituteFieldsAbsent(expression, form[..n - 1]);
      var (name, value) := form[n - 1];
      ReplaceWordCopies(expression, [], name, Inserted(value, name), false);
      assert expression + [] == expression;
    }
  }

  // ---------------------------------------------------------------------------
  // The whole of processExpression
  // ---------------------------------------------------------------------------

  /** What processExpression returns. */
  function Processed(expression: string, form: FormData, today: Date): string {
    LogicalPass(SubstituteFields(TodayPass(IsBlankPass(expression, form), today), form))
  }

  /** processExpression, with its loop over the form entries. */
  method ProcessExpression(expression: string, form: FormData, today: Date) returns (processed: string)
    ensures processed == Processed(expression, form, today)
  {
    var e := IsBlankPass(expression, form);
    e := TodayPass(e, today);
    var start := e;
    var k := 0;
    while k < |form|
      invariant 0 <= k <= |form|
      invariant e == SubstituteFields(start, form[..k])
    {
      SubstituteFieldsPrefix(start, form, k);
      var (fieldName, value) := form[k];
      var replacement := Literal(value);
      e := ReplaceWord(e, fieldName, ExpandReplacement(replacement, fieldName), false);
      k := k + 1;
    }
    assert form[..|form|] == form;
    processed := LogicalPass(e);
  }
}
