# Validation rule evaluator

A Dafny model of `ValidationRuleEvaluator`, the service that checks a submitted
record against the business rules stored for its object type. Each rule pairs a
formula with an error message. The rule *fires* when the formula is true for the
submitted values, and the evaluator returns the messages of the rules that fire.

The evaluator does not parse formulas. It rewrites the formula text with regular
expressions and hands the result to PHP's `eval`. The model follows that
pipeline step by step:

1. **ISBLANK pass.** Every `ISBLANK(x)` becomes `true` or `false`, according to
   PHP `empty()` of the field named `trim(x)`.
2. **TODAY pass.** Every `TODAY()` becomes the quoted current date in `Y-m-d`
   form.
3. **Field substitution.** For each form entry in array order, every whole-word
   occurrence of the field name is replaced by the value's literal:
   - a string becomes `'…'` after `addslashes`;
   - `null` becomes `null`;
   - an integer becomes its decimal form;
   - a boolean becomes `1` or the empty text.

   The literal is passed to `preg_replace` as its replacement text. So `\\`
   becomes `\`, and `$n`, `\n` and `${n}` are read as back-references: a
   reference to group 0 writes the field name, and one to any other group
   writes nothing.
4. **processLogicalFunctions.** Every `AND(c)` and then every `OR(c)` is
   rewritten. Here `c` runs up to the first `)`. The conditions are split on
   commas, trimmed, and those that are `empty()` are dropped. The rest are each
   wrapped in parentheses and joined by ` && ` or ` || `.
5. **safeEval.**
   - A whitelist of characters is checked.
   - `str_replace(['!=','<=','>=','='], ['!==','<=','>=','=='])` is applied.
   - Finally `eval("return (…);")` is cast to bool.
6. **Failure handling.** Any `Exception` thrown while a rule is processed or
   evaluated makes the rule fire (fail closed). This includes a PHP syntax
   error, which `safeEval` turns into an `InvalidArgumentException`. An `Error`
   of another kind escapes.

What `eval` makes of PHP code is not modelled: it is a parameter
`eval: string -> EvalResult`. It returns the truth value of the result, or
throws one of the four kinds of throwable the evaluator distinguishes. The
current date is a parameter too. The rules come from a store, a sequence of
`Rule` records, filtered as the two query scopes of the `ValidationRule` model do.

The modules:

| module | file | models |
|---|---|---|
| `PhpStrings` | php_strings.dfy | the PHP string functions used: `trim`, `explode`, `implode`, `str_replace`, `addslashes`/`stripslashes`, integer to string |
| `PregPatterns` | preg_patterns.dfy | the three regular-expression shapes used: `/NAME\(([^)]+)\)/`, `/\bNAME\([^)]+\)/` and `/\bNAME\b/`, and how `preg_replace` reads its replacement text |
| `FormValues` | form_values.dfy | form values, `$formData[$key] ?? ''`, `empty()`, and the literal spliced into the formula as `preg_replace` writes it |
| `Dates` | dates.dfy | the `Y-m-d` date text |
| `LogicalFunctions` | logical_functions.dfy | `processLogicalFunctions`, with its callback loop as a method |
| `ExpressionProcessing` | expression_processing.dfy | `processExpression`, with its loop over the form as a method |
| `SafeEvaluation` | safe_eval.dfy | `safeEval` |
| `RuleEvaluator` | rule_evaluator.dfy | `evaluateExpression` and `evaluateRules`, the latter with its loop as a method |
| `RuleExamples` | rule_examples.dfy | the stored rules of the seeder, and a nested `AND` inside `OR` |

Each loop of the source is a method. It is proved against a function that
states its result:
- `JoinConditions` against `Joined`;
- `ProcessExpression` against `Processed`;
- `EvaluateRules` against `ReportedErrors`.

`EvaluateExpression` has no loop. It is a method because it calls
`ProcessExpression`, and its `try`/`catch` is a branch on the outcome of
`SafeEval`. Its contract states when a rule fires, stays silent or lets an
Error escape.

The properties are lemmas about those functions.

## Model

| member | source | states |
|---|---|---|
| `PhpStrings.TrimIsMaximalSlice` | app/Services/ValidationRuleEvaluator.php:101 | `Trim`, PHP's `trim()`, returns a slice of its input. Only trim characters lie outside the slice, and the result neither starts nor ends with one. |
| `PhpStrings.TrimIdempotent` | app/Services/ValidationRuleEvaluator.php:101 | Trimming twice is trimming once. |
| `PhpStrings.ImplodeExplode` | app/Services/ValidationRuleEvaluator.php:101 | `Implode` undoes `Explode`: `implode(sep, explode(sep, s)) == s`. |
| `PhpStrings.ExplodeImplode` | app/Services/ValidationRuleEvaluator.php:101 | Exploding, on a one-character separator, the pieces imploded with it gives back the pieces, provided no piece contains the separator. |
| `PhpStrings.StrReplaceIsImplodeExplode` | app/Services/ValidationRuleEvaluator.php:151 | `StrReplace`, PHP's `str_replace`, cuts the text at the leftmost non-overlapping occurrences and glues the pieces with the replacement. |
| `PhpStrings.StrReplaceSelf` | app/Services/ValidationRuleEvaluator.php:151 | Replacing a text by itself (the `<=` and `>=` pairs) changes nothing. |
| `PhpStrings.StrReplaceAbsent` | app/Services/ValidationRuleEvaluator.php:151 | Text without the search text's first character is left alone. |
| `PhpStrings.StripSlashesAddSlashes` | app/Services/ValidationRuleEvaluator.php:75 | `stripslashes(addslashes(s)) == s`. |
| `PhpStrings.AddSlashesIdentity` | app/Services/ValidationRuleEvaluator.php:75 | `addslashes` changes exactly the strings that hold a quote, double quote, backslash or NUL. |
| `PhpStrings.AddSlashes` | app/Services/ValidationRuleEvaluator.php:75 | `addslashes` adds at most one character for each character of its input. |
| `PhpStrings.IntToStringChars` | app/Services/ValidationRuleEvaluator.php:80 | `IntToString`, the decimal text of an integer, is not empty and holds only digits and `-`. |
| `PhpStrings.IntToStringRoundTrip` | app/Services/ValidationRuleEvaluator.php:80 | The decimal text of an integer value, as `preg_replace` receives it, reads back as that integer. |
| `Dates.FormatYmd` | app/Services/ValidationRuleEvaluator.php:70 | The `Y-m-d` text holds only digits and `-`. It has 10 characters for a four-digit year. |
| `Dates.FormatYmdRoundTrip` | app/Services/ValidationRuleEvaluator.php:70 | The `Y-m-d` text reads back as the date. |
| `FormValues.Lookup` | app/Services/ValidationRuleEvaluator.php:64 | `$formData[$key]` is absent exactly when no entry has the key. Otherwise it is a stored entry's value. |
| `FormValues.IsBlankCases` | app/Services/ValidationRuleEvaluator.php:64-65 | `IsBlank`: a field is blank exactly when it is missing or holds null, false, 0, `""` or `"0"`. |
| `FormValues.StringLiteralRoundTrip` | app/Services/ValidationRuleEvaluator.php:74-75 | `Literal`: a string's literal is single-quoted, and `stripslashes` of its inside is the string. |
| `FormValues.IntLiteralRoundTrip` | app/Services/ValidationRuleEvaluator.php:80 | An integer's literal parses back as the integer. |
| `FormValues.StringLiteralEscapes` | app/Services/ValidationRuleEvaluator.php:75 | A string with a character that `addslashes` escapes gets a backslash in its literal. A string without one is quoted as it is. |
| `FormValues.InsertedPlain` | app/Services/ValidationRuleEvaluator.php:80 | The literals of null, booleans and integers hold no backslash or dollar, so `preg_replace` writes them as they are. |
| `FormValues.InsertedString` | app/Services/ValidationRuleEvaluator.php:74-80 | For a string without NUL or `$`, `preg_replace` writes `'…'` in which each quote and double quote keeps its backslash and each doubled backslash becomes one. |
| `FormValues.InsertedStringEscapes` | app/Services/ValidationRuleEvaluator.php:74-80 | For a string without NUL or `$`, the written text holds a backslash exactly when the string holds a quote, double quote or backslash. A string with none of the three is written between quotes as it is. |
| `FormValues.InsertedReadsReferences` | app/Services/ValidationRuleEvaluator.php:80 | As written: the string `$1` is written as `''`, and a NUL, which `addslashes` makes `\0`, is written as the field name between quotes. |
| `FormValues.IntendedInsertedIsLiteral` | app/Services/ValidationRuleEvaluator.php:80 | Corrected: with the literal escaped for `preg_replace`, the written text is the literal itself, and `stripslashes` of the inside of a string's literal gives the string. |
| `PregPatterns.MatchCall` | app/Services/ValidationRuleEvaluator.php:62 | A match of `NAME\(([^)]+)\)` is the name, `(`, a non-empty argument without `)`, and `)`. There is no match without a `)` or when the first character differs from the name's. |
| `PregPatterns.MatchCallOf` | app/Services/ValidationRuleEvaluator.php:62 | A call written out is matched, and exactly its argument is captured. |
| `PregPatterns.RewriteCallsAtCall` | app/Services/ValidationRuleEvaluator.php:62-66 | `RewriteCalls`, `preg_replace_callback` with `NAME\(([^)]+)\)`, replaces a call at the scan position by the callback's result, and resumes after its `)`. |
| `PregPatterns.RewriteCallsCopies` | app/Services/ValidationRuleEvaluator.php:96-111 | Text in which no match can start is copied unchanged. |
| `PregPatterns.RewriteCallsWithoutParen` | app/Services/ValidationRuleEvaluator.php:113-128 | Text without `)` holds no match. |
| `PregPatterns.RewriteCallsAbsent` | app/Services/ValidationRuleEvaluator.php:62-66 | Text without the name's first character is left alone. |
| `PregPatterns.RewriteCallsWithoutCall` | app/Services/ValidationRuleEvaluator.php:113-128 | Text in which `NAME(` occurs nowhere is left alone. |
| `PregPatterns.CallFreeWithoutOpen` | app/Services/ValidationRuleEvaluator.php:113-128 | Text without `(` holds no `NAME(`. |
| `PregPatterns.CallFreeWithoutFirst` | app/Services/ValidationRuleEvaluator.php:96-111 | Text without the first letter of NAME holds no `NAME(`. |
| `PregPatterns.CallFreeAppend` | app/Services/ValidationRuleEvaluator.php:96-111 | Two texts without `NAME(` glued together hold none, unless a letter of NAME at the end of the first and a later character of `NAME(` at the start of the second could complete one. |
| `PregPatterns.CallFreeBetween` | app/Services/ValidationRuleEvaluator.php:96-111 | The same for a text between an opening and a closing that cannot start or end a `NAME(` across the join. |
| `PregPatterns.RemoveWordCallsWithoutParen` | app/Services/ValidationRuleEvaluator.php:98-99 | `RemoveWordCalls`: the deletion of `\bNAME\([^)]+\)` never applies to text without `)`. |
| `PregPatterns.ReplaceWordSelf` | app/Services/ValidationRuleEvaluator.php:80 | Replacing a whole-word name by itself changes nothing. |
| `PregPatterns.ReplaceWordCopies` | app/Services/ValidationRuleEvaluator.php:80 | Text without the name's first character is copied unchanged. |
| `PregPatterns.ReplaceWordAtWord` | app/Services/ValidationRuleEvaluator.php:80 | `ReplaceWord`, `preg_replace` with `\bNAME\b`: a whole-word occurrence, with `\b` on both sides, is replaced, and scanning resumes after it. |
| `PregPatterns.ReplaceWordInsideWord` | app/Services/ValidationRuleEvaluator.php:80 | An occurrence glued to a word character on either side is not replaced. |
| `PregPatterns.ExpandPlain` | app/Services/ValidationRuleEvaluator.php:80 | `ExpandReplacement`, `preg_replace`'s reading of its replacement text, writes a text without `\` or `$` as it is. |
| `PregPatterns.EscapeReplacementRoundTrip` | app/Services/ValidationRuleEvaluator.php:80 | A text with a backslash put before each `\` and `$` is written back as it was, whatever the match. |
| `LogicalFunctions.StripNestedIsIdentity` | app/Services/ValidationRuleEvaluator.php:97-99 | The captured conditions never hold `)`, so the deletions of nested `AND(…)`/`OR(…)` never change them. |
| `LogicalFunctions.JoinConditions` | app/Services/ValidationRuleEvaluator.php:97-110 | The callback's loop returns `Joined`: keeps exactly the conditions that are not `empty()`, each parenthesised and in order, and implodes them with the glue. |
| `LogicalFunctions.ParenthesisedShape` | app/Services/ValidationRuleEvaluator.php:104-108 | Every kept entry is `(c)` with a non-empty `c`. |
| `LogicalFunctions.ParenthesisedKept` | app/Services/ValidationRuleEvaluator.php:104-108 | `Parenthesised` keeps exactly the conditions that are not `empty()`: its entries are those conditions in parentheses, taken at strictly increasing indices, and an index is taken exactly when its condition is not `empty()`. |
| `LogicalFunctions.ParenthesisedKeepsNonEmpty` | app/Services/ValidationRuleEvaluator.php:104-108 | When no condition is empty, all are kept and wrapped. |
| `LogicalFunctions.ParenthesisedDropsEmpty` | app/Services/ValidationRuleEvaluator.php:104-110 | When every condition is empty, nothing is kept, and the call becomes the empty text. |
| `LogicalFunctions.JoinedCommaList` | app/Services/ValidationRuleEvaluator.php:97-110 | For a comma list of conditions with no comma or `)` and non-empty trimmed forms, the callback gives the trimmed conditions, parenthesised and joined by the glue. |
| `LogicalFunctions.AndPassOfConditions` | app/Services/ValidationRuleEvaluator.php:96-111 | The AND pass turns `AND(p1,…,pn)` into `(p1) && … && (pn)`, with each condition trimmed. |
| `LogicalFunctions.LogicalPassWithoutOr` | app/Services/ValidationRuleEvaluator.php:113-128 | When the AND pass leaves no `O`, the OR pass changes nothing. |
| `LogicalFunctions.JoinedCallFree` | app/Services/ValidationRuleEvaluator.php:96-111 | When no condition holds `OR(`, neither does the AND pass's output: the glue and the parentheses cannot complete one. |
| `LogicalFunctions.AndOfConditions` | app/Services/ValidationRuleEvaluator.php:94-131 | `LogicalPass`, `processLogicalFunctions`, turns `AND(p1,…,pn)` into `(p1) && … && (pn)`, with each condition trimmed, provided no condition holds a comma, `)` or `OR(`. |
| `LogicalFunctions.OrPassOfConditions` | app/Services/ValidationRuleEvaluator.php:113-128 | The OR pass turns `OR(p1,…,pn)` into the conditions, each trimmed and parenthesised, joined by the or-operator written as two vertical bars. |
| `LogicalFunctions.CommaListAndFree` | app/Services/ValidationRuleEvaluator.php:96-111 | Conditions joined by commas hold no `AND(` when no condition does, so the AND pass has no call to rewrite. |
| `LogicalFunctions.OrFormulaAndFree` | app/Services/ValidationRuleEvaluator.php:96-111 | `OR(p1,…,pn)` holds no `AND(` when no condition does. |
| `LogicalFunctions.OrOfConditions` | app/Services/ValidationRuleEvaluator.php:94-131 | `LogicalPass` turns `OR(p1,…,pn)` into the conditions, each trimmed and parenthesised, joined by the or-operator, provided no condition holds a comma, `)` or `AND(`: the AND pass leaves it alone. |
| `ExpressionProcessing.IsBlankPassAtCall` | app/Services/ValidationRuleEvaluator.php:62-66 | `IsBlankPass`: `ISBLANK(x)` becomes `true` exactly when the field `trim(x)` is missing, null, false, 0, `""` or `"0"`, and `false` otherwise. The scan resumes after the `)`. |
| `ExpressionProcessing.IsBlankPassAbsent` | app/Services/ValidationRuleEvaluator.php:62-66 | Text without `I` is left alone. |
| `ExpressionProcessing.TodayPassReplacesEveryCall` | app/Services/ValidationRuleEvaluator.php:69-71 | `TodayPass`: every `TODAY()` becomes the date literal, and the text between occurrences is kept. |
| `ExpressionProcessing.TodayPassAtCall` | app/Services/ValidationRuleEvaluator.php:69-71 | A `TODAY()` at the scan position becomes the date literal. |
| `ExpressionProcessing.TodayPassAbsent` | app/Services/ValidationRuleEvaluator.php:69-71 | Text without `T` is left alone. |
| `ExpressionProcessing.TodayLiteralRoundTrip` | app/Services/ValidationRuleEvaluator.php:70 | The date literal is quoted, holds only digits and `-`, and reads back as the date. |
| `ExpressionProcessing.SubstituteFieldsAppend` | app/Services/ValidationRuleEvaluator.php:73-81 | `SubstituteFields`: substituting two consecutive parts of the form is substituting the first part and then the second: each entry works on the previous one's output. |
| `ExpressionProcessing.SubstituteFieldsAbsent` | app/Services/ValidationRuleEvaluator.php:73-81 | A formula holding no field name's first character is not changed. |
| `ExpressionProcessing.ProcessExpression` | app/Services/ValidationRuleEvaluator.php:59-86 | The method, with its loop over the form, returns `Processed`: the ISBLANK pass, then TODAY, then the substitutions in array order, then the logical functions. |
| `SafeEvaluation.RejectedCharacters` | app/Services/ValidationRuleEvaluator.php:141-149 | `Whitelisted`: an underscore, comma, backslash, colon or semicolon anywhere makes the whitelist fail. |
| `SafeEvaluation.EscapedLiteralRejected` | app/Services/ValidationRuleEvaluator.php:141-149 | Any text carrying the written literal of a string without NUL or `$` that holds a quote, double quote or backslash fails the whitelist. |
| `SafeEvaluation.RewriteOperatorsDoubles` | app/Services/ValidationRuleEvaluator.php:151 | `RewriteOperators`: the four replacements in sequence make every `=` two, and an `=` after `!` four. |
| `SafeEvaluation.RewriteOperatorsCounts` | app/Services/ValidationRuleEvaluator.php:151 | The output holds 2·#`=` + 2·#`!=` equals signs, and is the input once the `=` characters are removed. |
| `SafeEvaluation.DoubledEqualsAppend` | app/Services/ValidationRuleEvaluator.php:151 | The rewrite works piece by piece, given whether the first piece ended with `!`. |
| `SafeEvaluation.AsWrittenComparison` | app/Services/ValidationRuleEvaluator.php:151 | Between two plain operands, `<=` becomes `<==`, `>=` becomes `>==` and `!=` becomes `!====`. Only a lone `=` ends as the one-pass rewrite would have it. |
| `SafeEvaluation.IntendedComparison` | app/Services/ValidationRuleEvaluator.php:151 | The one-pass rewrite turns `!=` into `!==` and `=` into `==`, and keeps `<=` and `>=`. The operands are left alone. |
| `SafeEvaluation.IntendedOperatorsAppend` | app/Services/ValidationRuleEvaluator.php:151 | The one-pass rewrite works piece by piece wherever the second piece does not start with `=`. |
| `SafeEvaluation.SafeEval` | app/Services/ValidationRuleEvaluator.php:139-159 | A text that fails the whitelist makes `safeEval` throw an Exception. The only thing that escapes it other than an Exception is an Error that is not a syntax error. |
| `SafeEvaluation.SafeEvalCases` | app/Services/ValidationRuleEvaluator.php:139-159 | `safeEval` returns eval's answer exactly when the whitelist passes and eval returns. It throws an Exception exactly when the whitelist fails, or eval reports a syntax error or throws an Exception. It lets an Error escape exactly when eval throws an Error other than a syntax error. |
| `RuleEvaluator.Fetched` | app/Services/ValidationRuleEvaluator.php:19-21 | A rule is fetched exactly when some active rule of the object type equals it, and no more rules are fetched than stored. |
| `RuleEvaluator.FetchedPicks` | app/Services/ValidationRuleEvaluator.php:19-21 | The fetched rules are the store's rules at strictly increasing indices, and an index is taken exactly when its rule is active and of the object type. |
| `RuleEvaluator.Verdict` | app/Services/ValidationRuleEvaluator.php:41-50 | A rule whose processed formula fails the whitelist fires, and only an Error other than a syntax error escapes. |
| `RuleEvaluator.EvaluateExpression` | app/Services/ValidationRuleEvaluator.php:41-50 | The rule stays silent exactly when its processed formula passes the whitelist and eval returns false on the rewritten code. It fires when the whitelist fails. An Error escapes exactly when the whitelist passes and eval throws an Error that is not a syntax error. |
| `RuleEvaluator.VerdictFailClosed` | app/Services/ValidationRuleEvaluator.php:43-49 | A rule stays silent exactly when its processed formula passes the whitelist and eval returns false on the rewritten code. A rule that fails the whitelist fires. Only an Error other than a syntax error escapes. |
| `RuleEvaluator.ReportedErrors` | app/Services/ValidationRuleEvaluator.php:23-31 | There are never more messages than rules. |
| `RuleEvaluator.EvaluateRules` | app/Services/ValidationRuleEvaluator.php:17-32 | The method, with its loop over the fetched rules, returns `ReportedErrors` of them. |
| `RuleEvaluator.ReportedErrorsAreFiredRules` | app/Services/ValidationRuleEvaluator.php:23-31 | The messages are those of exactly the rules that fire, in rule order, at strictly increasing indices. |
| `RuleEvaluator.ReportedErrorsThrown` | app/Services/ValidationRuleEvaluator.php:23-31 | An Error escapes exactly when some rule lets one escape, and it is the first such rule's Error. |
| `RuleEvaluator.ReportedErrorsThrownStays` | app/Services/ValidationRuleEvaluator.php:25-29 | Once an Error has escaped, later rules change nothing. |
| `RuleEvaluator.ReportedErrorsAppend` | app/Services/ValidationRuleEvaluator.php:23-31 | Evaluating two batches of rules gives the first batch's messages followed by the second's. |
| `RuleEvaluator.EscapedValueFires` | app/Services/ValidationRuleEvaluator.php:74-75 | A rule fires when its processed formula carries the written literal of a string without NUL or `$` that holds a quote, double quote or backslash. |
| `RuleExamples.IsBlankRule` | database/seeders/ValidationRuleSeeder.php:20 | `ISBLANK(Priority)` becomes `true` or `false` according to `empty()`, with field names that start with a capital letter. The word passes the whitelist and is not changed by the rewrite. |
| `RuleExamples.CostProcessedWithValue` | database/seeders/ValidationRuleSeeder.php:26 | With an integer `v` in `Estimated_Cost`, the formula becomes `v = 0`, passes the whitelist, and is rewritten to `v == 0`. |
| `RuleExamples.CostRuleWithValue` | database/seeders/ValidationRuleSeeder.php:26 | With an integer `v` in `Estimated_Cost`, the rule stays silent exactly when eval answers false on `return (v == 0);`. |
| `RuleExamples.CostRuleWithoutField` | database/seeders/ValidationRuleSeeder.php:26 | When no field name can match inside the formula, `Estimated_Cost` stays in it, and the underscore makes the rule fire. |
| `RuleExamples.PriceComparisonRewritten` | database/seeders/ValidationRuleSeeder.php:72 | `v <= 0` is handed to eval as `v <== 0`. The one-pass rewrite keeps `v <= 0`. |
| `RuleExamples.PriceRuleAlwaysFires` | database/seeders/ValidationRuleSeeder.php:72 | Since PHP rejects `<==` as a syntax error, the `Purchase_Price <= 0` rule fires for every price. |
| `RuleExamples.StatusProcessed` | database/seeders/ValidationRuleSeeder.php:44 | For a status of letters, digits and spaces `v`, `AND(Status = "Open", ISBLANK(Priority))` becomes `('v' = "Open") && (w)`, where `w` is `true` exactly when Priority is blank. |
| `RuleExamples.StatusLogicalPass` | app/Services/ValidationRuleEvaluator.php:94-131 | `AND('v' = "Open", w)` becomes `('v' = "Open") && (w)` for a word `w` of lower-case letters. |
| `RuleExamples.StatusRuleVerdict` | database/seeders/ValidationRuleSeeder.php:44 | For such a status, the rule stays silent exactly when eval answers false on `return (('v' == "Open") && (w));`. |
| `RuleExamples.NestedAndInOr` | app/Services/ValidationRuleEvaluator.php:96-128 | `OR(AND(a,b),c)` becomes `((a) && (b),c)`: the OR capture stops at the first `)`. The comma left in the result fails the whitelist, so such a rule always fires. |

## Findings

| source | as written | input that shows it | evidently intended | confidence | as-written member | corrected member |
|---|---|---|---|---|---|---|
| app/Services/ValidationRuleEvaluator.php:151 | `str_replace` applies its pairs one after the other over the whole text. The final `=` → `==` pair therefore doubles the `=` of `<=`, `>=` and the already rewritten `!==`. The results are `<==`, `>==` and `!====`, which PHP rejects as syntax errors, so every rule using them fires. | The stored rule `Purchase_Price <= 0` (database/seeders/ValidationRuleSeeder.php:72) with `Purchase_Price` = 5: eval receives `return (5 <== 0);`. | eval receives `return (5 <= 0);`, which is false, so the rule does not fire. This is a one-pass rewrite, as `strtr` does with the same pairs. | high; not executed | `SafeEvaluation.AsWrittenComparison`, `RuleExamples.PriceRuleAlwaysFires` | `SafeEvaluation.IntendedComparison` (on `SafeEvaluation.IntendedOperators`), `RuleExamples.PriceComparisonRewritten` |
| app/Services/ValidationRuleEvaluator.php:80 | The value's literal is passed to `preg_replace` as its replacement text. There `$n`, `\n` and `${n}` are back-references, and `\\` is one backslash. | `Status` = `$1`: the field is replaced by `''`. A `Status` holding a NUL: `addslashes` makes it `\0`, so the field is replaced by `'Status'`. That passes the whitelist, where the value's own backslash would have made the rule fire. | The literal is written as built, for example by escaping `\` and `$` for the replacement, or with `preg_replace_callback`. | medium; not executed | `FormValues.InsertedReadsReferences` | `FormValues.IntendedInsertedIsLiteral` (on `PregPatterns.EscapeReplacementRoundTrip`) |

For both findings, the rest of the pipeline (`SafeEval`, `Verdict`,
`Processed`, `EvaluateRules`) keeps the behaviour as written. Each corrected
definition sits beside it, with its property proved, so that the two can be
compared on the same input. The `<=` defect also hits the stored rule
`End_Date <= Start_Date` (database/seeders/ValidationRuleSeeder.php:38).

## Left out

- PHP's `eval`: what a piece of PHP code evaluates to is an oracle parameter. The model states which code eval is handed and what the evaluator does with each outcome.
- `SafeEvaluation.SafeEval`: the `(bool)` cast is folded into the oracle's answer.
- `Carbon::today()`: the current date is a parameter.
- The database query: the store is a sequence of rules. Its order is taken as the order `get()` returns, which the query does not fix.
- Form values that are floats or arrays: only null, booleans, integers and strings are modelled. Integers are unbounded, because PHP's 64-bit limits play no role in the text the evaluator builds.
- Strings are sequences of characters, and PHP strings are bytes. `\b` and `\s` use their ASCII classes, which agree for the ASCII text of rules.
- `preg_replace`'s reading of a replacement text is modelled for a pattern without capture groups, which is the only kind line 80 builds. A reference to a group past the last one writes nothing, as PCRE does.
- PCRE failures (backtrack limits) and the `preg_*` error return `null`: not modelled.
- The HTTP controller, routes, migrations and the rule model's persistence: they are not part of this model.
- `RuleEvaluator.ReportedErrorsAreFiredRules`: speaks of the case where no Error escapes. The other case is `RuleEvaluator.ReportedErrorsThrown`.
- `RuleEvaluator.EscapedValueFires`, `SafeEvaluation.EscapedLiteralRejected`: stated for string values without NUL or `$`. Such characters are read as back-references (see the second finding), and then the written text need not hold a backslash.
- `RuleExamples.StatusProcessed`, `RuleExamples.StatusRuleVerdict`: stated for a status of ASCII letters, digits and spaces, and for a form holding Priority and then Status. Other values and other forms go through the general lemmas.
- `RuleExamples.IsBlankRule`, `RuleExamples.CostRuleWithoutField`: state the formulas under conditions on the form's field names (capitalised names, or names whose first character is absent from the formula) rather than for every form.
- Typed values, operator precedence and nested `AND`/`OR`: the evaluator has no parser, so the model has none either. Those meanings exist only as far as the text rewriting and `eval` give them, and `RuleExamples.NestedAndInOr` shows where nesting breaks.
