/** processLogicalFunctions: every `AND(c)` and then every `OR(c)` (with c running
    up to the first `)`) is rewritten into the conditions of c, split on commas,
    trimmed, with the empty ones dropped, each parenthesised and joined by
    ` && ` or ` || `. */
module LogicalFunctions {
  import opened PhpStrings
  import opened PregPatterns
  import opened FormValues

  /** The two preg_replace calls that delete `\bAND\([^)]+\)` and then
      `\bOR\([^)]+\)` fragments from the captured conditions. */
  function StripNested(conditions: string): string {
    RemoveWordCalls(RemoveWordCalls(conditions, "AND", false), "OR", false)
  }

  /** The captured conditions never contain `)`, so those deletions never apply:
      a nested call is not removed but split like any other text. */
  lemma StripNestedIsIdentity(conditions: string)
    requires ')' !in conditions
    ensures StripNested(conditions) == conditions
  {
    RemoveWordCallsWithoutParen(conditions, "AND", false);
    RemoveWordCallsWithoutParen(conditions, "OR", false);
  }

  /** array_map('trim', pieces). */
  function TrimAll(pieces: seq<string>): (r: seq<string>)
    ensures |r| == |pieces|
  {
    seq(|pieces|, k requires 0 <= k < |pieces| => Trim(pieces[k]))
  }

  /** The condition list: array_map('trim', explode(',', $conditions)) after the
      deletions. */
  function Conditions(conditions: string): seq<string> {
    TrimAll(Explode(",", StripNested(conditions)))
  }

  /** A non-empty condition between parentheses. */
  predicate IsParenthesisedCondition(w: string) {
    |w| >= 3 && w[0] == '(' && w[|w| - 1] == ')' && !IsEmpty(Str(w[1..|w| - 1]))
  }

  /** The callback's loop: every condition that is not empty() (neither "" nor
      "0"), wrapped in parentheses, in order. */
  function Parenthesised(conditions: seq<string>): (r: seq<string>)
    ensures |r| <= |conditions|
  {
    if conditions == [] then []
    else
      var last := conditions[|conditions| - 1];
      var r := Parenthesised(conditions[..|conditions| - 1]);
      if IsEmpty(Str(last)) then r else r + ["(" + last + ")"]
  }

  /** Every entry the loop keeps is a non-empty condition between
      parentheses. */
  lemma {:induction false} ParenthesisedShape(conditions: seq<string>)
    ensures forall k :: 0 <= k < |Parenthesised(conditions)| ==> IsParenthesisedCondition(Parenthesised(conditions)[k])
  {
    if conditions != [] {
      var last := conditions[|conditions| - 1];
      ParenthesisedShape(conditions[..|conditions| - 1]);
      assert ("(" + last + ")")[1..|last| + 1] == last;
    }
  }

  /** The loop keeps exactly the conditions that are not empty(), in order:
      its entries are those conditions, parenthesised, taken at strictly
      increasing indices. */
  lemma {:induction false} ParenthesisedKept(conditions: seq<string>) returns (kept: seq<nat>)
    ensures |kept| == |Parenthesised(conditions)|
    ensures forall j :: 0 <= j < |kept| ==>
              kept[j] < |conditions| && Parenthesised(conditions)[j] == "(" + conditions[kept[j]] + ")"
    ensures forall j, k :: 0 <= j < k < |kept| ==> kept[j] < kept[k]
    ensures forall i :: 0 <= i < |conditions| ==> (i in kept <==> !IsEmpty(Str(conditions[i])))
    decreases |conditions|
  {
    if conditions == [] {
      kept := [];
    } else {
      var n := |conditions| - 1;
      var front := conditions[..n];
      var earlier := ParenthesisedKept(front);
      assert forall i :: 0 <= i < n ==> conditions[i] == front[i];
      if IsEmpty(Str(conditions[n])) {
        kept := earlier;
      } else {
        kept := earlier + [n];
      }
    }
  }

  /** The callback's result for the captured conditions. */
  function Joined(conditions: string, glue: string): string {
    Implode(glue, Parenthesised(Conditions(conditions)))
  }

  /** The callback of lines 96-111 (glue ` && `) and 113-128 (glue ` || `). */
  method JoinConditions(conditions: string, glue: string) returns (joined: string)
    ensures joined == Joined(conditions, glue)
  {
    var stripped := StripNested(conditions);
    var conditionArray := TrimAll(Explode(",", stripped));
    var result: seq<string> := [];
    for i := 0 to |conditionArray|
      invariant result == Parenthesised(conditionArray[..i])
    {
      assert conditionArray[..i + 1][..i] == conditionArray[..i];
      if !IsEmpty(Str(conditionArray[i])) {
        result := result + ["(" + conditionArray[i] + ")"];
      }
    }
    assert conditionArray[..|conditionArray|] == conditionArray;
    joined := Implode(glue, result);
  }

  /** processLogicalFunctions: the AND pass, then the OR pass over its output. */
  function LogicalPass(expression: string): string {
    RewriteCalls(RewriteCalls(expression, "AND", AndCallback), "OR", OrCallback)
  }

  function AndCallback(conditions: string): string {
    Joined(conditions, " && ")
  }

  function OrCallback(conditions: string): string {
    Joined(conditions, " || ")
  }

  /** Each condition wrapped in parentheses. */
  function Wrap(conditions: seq<string>): (r: seq<string>)
    ensures |r| == |conditions|
    ensures forall k :: 0 <= k < |r| ==> r[k] == "(" + conditions[k] + ")"
  {
    seq(|conditions|, k requires 0 <= k < |conditions| => "(" + conditions[k] + ")")
  }

  /** When no condition is empty, the loop keeps them all. */
  lemma {:induction false} ParenthesisedKeepsNonEmpty(conditions: seq<string>)
    requires forall k :: 0 <= k < |conditions| ==> !IsEmpty(Str(conditions[k]))
    ensures Parenthesised(conditions) == Wrap(conditions)
  {
    if conditions != [] {
      ParenthesisedKeepsNonEmpty(conditions[..|conditions| - 1]);
    }
  }

  /** When every condition is empty, nothing is kept and the call becomes the
      empty text. */
  lemma {:induction false} ParenthesisedDropsEmpty(conditions: seq<string>)
    requires forall k :: 0 <= k < |conditions| ==> IsEmpty(Str(conditions[k]))
    ensures Parenthesised(conditions) == []
  {
    if conditions != [] {
      ParenthesisedDropsEmpty(conditions[..|conditions| - 1]);
    }
  }

  lemma {:induction false} ImplodeAvoids(c: char, glue: string, pieces: seq<string>)
    requires c !in glue
    requires forall k :: 0 <= k < |pieces| ==> c !in pieces[k]
    ensures c !in Implode(glue, pieces)
  {
    if |pieces| > 1 {
      ImplodeAvoids(c, glue, pieces[1..]);
    }
  }

  /** The callback undoes a comma-separated list: for conditions without commas
      or `)` whose trimmed forms are not empty, the result is the trimmed
      conditions, each parenthesised, joined by the glue. */
  lemma JoinedCommaList(parts: seq<string>, glue: string)
    requires |parts| >= 1
    requires forall k :: 0 <= k < |parts| ==> ',' !in parts[k] && ')' !in parts[k]
    requires forall k :: 0 <= k < |parts| ==> !IsEmpty(Str(Trim(parts[k])))
    ensures Joined(Implode(",", parts), glue) == Implode(glue, Wrap(TrimAll(parts)))
  {
    var c := Implode(",", parts);
    ImplodeAvoids(')', ",", parts);
    StripNestedIsIdentity(c);
    ExplodeImplode(',', parts);
    ParenthesisedKeepsNonEmpty(TrimAll(parts));
  }

  lemma NotEmptyOnceTrimmed(p: string)
    requires !IsEmpty(Str(Trim(p)))
    ensures p != []
  {
  }

  lemma ImplodeKeepsFirst(glue: string, pieces: seq<string>)
    requires |pieces| >= 1
    ensures |Implode(glue, pieces)| >= |pieces[0]|
  {
  }

  /** The AND pass on `AND(p1,...,pn)` alone. */
  lemma AndPassOfConditions(parts: seq<string>)
    requires |parts| >= 1
    requires forall k :: 0 <= k < |parts| ==> ',' !in parts[k] && ')' !in parts[k]
    requires forall k :: 0 <= k < |parts| ==> !IsEmpty(Str(Trim(parts[k])))
    ensures RewriteCalls("AND" + "(" + Implode(",", parts) + ")", "AND", AndCallback)
         == Implode(" && ", Wrap(TrimAll(parts)))
  {
    var c := Implode(",", parts);
    NotEmptyOnceTrimmed(parts[0]);
    ImplodeKeepsFirst(",", parts);
    ImplodeAvoids(')', ",", parts);
    RewriteCallsSingleCall("AND", c, AndCallback);
    JoinedCommaList(parts, " && ");
  }

  /** When the AND pass leaves no `O`, the OR pass has nothing to rewrite. */
  lemma LogicalPassWithoutOr(expression: string)
    requires 'O' !in RewriteCalls(expression, "AND", AndCallback)
    ensures LogicalPass(expression) == RewriteCalls(expression, "AND", AndCallback)
  {
    RewriteCallsAbsent(RewriteCalls(expression, "AND", AndCallback), "OR", OrCallback);
  }

  /** A formula `AND(p1,...,pn)` whose conditions hold no comma, no `)` and
      no `OR(` becomes `(p1) && ... && (pn)` with each condition trimmed. */
  lemma AndOfConditions(parts: seq<string>)
    requires |parts| >= 1
    requires forall k :: 0 <= k < |parts| ==> ',' !in parts[k] && ')' !in parts[k]
    requires forall k :: 0 <= k < |parts| ==> CallFree(parts[k], "OR")
    requires forall k :: 0 <= k < |parts| ==> !IsEmpty(Str(Trim(parts[k])))
    ensures LogicalPass("AND" + "(" + Implode(",", parts) + ")") == Implode(" && ", Wrap(TrimAll(parts)))
  {
    var formula := "AND" + "(" + Implode(",", parts) + ")";
    var joined := Implode(" && ", Wrap(TrimAll(parts)));
    assert RewriteCalls(formula, "AND", AndCallback) == joined by {
      AndPassOfConditions(parts);
    }
    JoinedCallFree(parts);
    RewriteCallsWithoutCall(joined, "OR", OrCallback);
  }

  /** The OR pass on `OR(p1,...,pn)` alone. */
  lemma OrPassOfConditions(parts: seq<string>)
    requires |parts| >= 1
    requires forall k :: 0 <= k < |parts| ==> ',' !in parts[k] && ')' !in parts[k]
    requires forall k :: 0 <= k < |parts| ==> !IsEmpty(Str(Trim(parts[k])))
    ensures RewriteCalls("OR" + "(" + Implode(",", parts) + ")", "OR", OrCallback)
         == Implode(" || ", Wrap(TrimAll(parts)))
  {
    var c := Implode(",", parts);
    NotEmptyOnceTrimmed(parts[0]);
    ImplodeKeepsFirst(",", parts);
    ImplodeAvoids(')', ",", parts);
    RewriteCallsSingleCall("OR", c, OrCallback);
    JoinedCommaList(parts, " || ");
  }

  /** Comma-joined conditions without `AND(` hold none. */
  lemma {:induction false} CommaListAndFree(pieces: seq<string>)
    requires forall k :: 0 <= k < |pieces| ==> CallFree(pieces[k], "AND")
    ensures CallFree(Implode(",", pieces), "AND")
    decreases |pieces|
  {
    if |pieces| == 0 {
      CallFreeWithoutFirst([], "AND");
    } else if |pieces| > 1 {
      CommaListAndFree(pieces[1..]);
      CallFreeWithoutFirst(",", "AND");
      CallFreeAppend(pieces[0], ",", "AND");
      CallFreeAppend(pieces[0] + ",", Implode(",", pieces[1..]), "AND");
    }
  }

  /** `OR(p1,...,pn)` holds no `AND(` when no part does. */
  lemma OrFormulaAndFree(parts: seq<string>)
    requires forall k :: 0 <= k < |parts| ==> CallFree(parts[k], "AND")
    ensures CallFree("OR" + "(" + Implode(",", parts) + ")", "AND")
  {
    CommaListAndFree(parts);
    CallFreeWithoutFirst("OR" + "(", "AND");
    CallFreeWithoutFirst(")", "AND");
    assert ')' !in "ND(" && '(' !in "AND";
    CallFreeBetween("OR" + "(", Implode(",", parts), ")", "AND");
  }

  /** processLogicalFunctions on `OR(p1,...,pn)`, where no part holds `AND(`:
      the AND pass finds no call, and the OR pass joins the trimmed,
      parenthesised parts with ` || `. */
  lemma OrOfConditions(parts: seq<string>)
    requires |parts| >= 1
    requires forall k :: 0 <= k < |parts| ==> ',' !in parts[k] && ')' !in parts[k]
    requires forall k :: 0 <= k < |parts| ==> CallFree(parts[k], "AND")
    requires forall k :: 0 <= k < |parts| ==> !IsEmpty(Str(Trim(parts[k])))
    ensures LogicalPass("OR" + "(" + Implode(",", parts) + ")") == Implode(" || ", Wrap(TrimAll(parts)))
  {
    var formula := "OR" + "(" + Implode(",", parts) + ")";
    OrFormulaAndFree(parts);
    RewriteCallsWithoutCall(formula, "AND", AndCallback);
    OrPassOfConditions(parts);
  }

  /** `O`, `R` and `(` at index i of s. */
  predicate OrOpenAt(s: string, i: int) {
    0 <= i && i + 2 < |s| && s[i] == 'O' && s[i + 1] == 'R' && s[i + 2] == '('
  }

  predicate NoOrOpen(s: string) {
    forall i :: 0 <= i < |s| ==> !OrOpenAt(s, i)
  }

  /** `OR(` occurs nowhere exactly when no index starts `O`, `R`, `(`. */
  lemma OrOpenIsCall(s: string)
    ensures CallFree(s, "OR") <==> NoOrOpen(s)
  {
    var p := "OR" + "(";
    assert p == ['O', 'R', '('];
    forall i | 0 <= i <= |s|
      ensures (p <= s[i..]) <==> OrOpenAt(s, i)
    {
      if i + 2 < |s| {
        assert s[i..][..3] == [s[i], s[i + 1], s[i + 2]];
      }
    }
  }

  /** Gluing two texts without `OR(` gives none, unless the glue point could
      complete one. */
  lemma NoOrOpenAppend(a: string, b: string)
    requires NoOrOpen(a) && NoOrOpen(b)
    requires a == [] || b == [] || (a[|a| - 1] != 'O' && a[|a| - 1] != 'R') || (b[0] != 'R' && b[0] != '(')
    ensures NoOrOpen(a + b)
  {
    var s := a + b;
    forall i | 0 <= i < |s|
      ensures !OrOpenAt(s, i)
    {
      if i + 2 >= |s| {
      } else if i + 2 < |a| {
        assert !OrOpenAt(a, i);
        assert s[i] == a[i] && s[i + 1] == a[i + 1] && s[i + 2] == a[i + 2];
      } else if i >= |a| {
        assert !OrOpenAt(b, i - |a|);
        assert s[i] == b[i - |a|] && s[i + 1] == b[i - |a| + 1] && s[i + 2] == b[i - |a| + 2];
      } else if i == |a| - 1 {
        assert s[i] == a[|a| - 1] && s[i + 1] == b[0];
      } else {
        assert s[i + 1] == a[|a| - 1] && s[i + 2] == b[0];
      }
    }
  }

  /** trim() keeps a slice, so it adds no `OR(`. */
  lemma NoOrOpenTrim(p: string)
    requires NoOrOpen(p)
    ensures NoOrOpen(Trim(p))
  {
    var lead := TrimIsMaximalSlice(p);
    var t := Trim(p);
    forall i | 0 <= i < |t| && i + 2 < |t|
      ensures !OrOpenAt(t, i)
    {
      assert !OrOpenAt(p, lead + i);
      assert t[i] == p[lead + i] && t[i + 1] == p[lead + i + 1] && t[i + 2] == p[lead + i + 2];
    }
  }

  /** A trimmed condition between parentheses holds no `OR(` if the condition
      holds none. */
  lemma NoOrOpenWrapped(p: string)
    requires NoOrOpen(p)
    ensures NoOrOpen("(" + Trim(p) + ")")
  {
    var t := Trim(p);
    NoOrOpenTrim(p);
    assert "(" == ['('] && ")" == [')'];
    assert NoOrOpen("(") && NoOrOpen(")");
    NoOrOpenAppend("(", t);
    NoOrOpenAppend("(" + t, ")");
  }

  /** Joining texts without `OR(` by ` && ` gives none. */
  lemma {:induction false} NoOrOpenImplode(pieces: seq<string>)
    requires forall k :: 0 <= k < |pieces| ==> NoOrOpen(pieces[k])
    ensures NoOrOpen(Implode(" && ", pieces))
  {
    if |pieces| == 0 {
      assert Implode(" && ", pieces) == [];
    } else if |pieces| > 1 {
      var glue := " && ";
      assert glue == [' ', '&', '&', ' '];
      assert NoOrOpen(glue);
      NoOrOpenImplode(pieces[1..]);
      NoOrOpenAppend(pieces[0], glue);
      assert (pieces[0] + glue)[|pieces[0] + glue| - 1] == ' ';
      NoOrOpenAppend(pieces[0] + glue, Implode(glue, pieces[1..]));
    }
  }

  /** The AND pass's output for conditions without `OR(` holds none: the
      glue and the parentheses cannot complete one. */
  lemma JoinedCallFree(parts: seq<string>)
    requires forall k :: 0 <= k < |parts| ==> CallFree(parts[k], "OR")
    ensures CallFree(Implode(" && ", Wrap(TrimAll(parts))), "OR")
  {
    var w := Wrap(TrimAll(parts));
    forall k | 0 <= k < |parts|
      ensures NoOrOpen(w[k])
    {
      OrOpenIsCall(parts[k]);
      NoOrOpenWrapped(parts[k]);
    }
    NoOrOpenImplode(w);
    OrOpenIsCall(Implode(" && ", w));
  }
}
