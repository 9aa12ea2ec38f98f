/** The submitted form: an ordered list of (field name, value) entries, as a PHP
    array keeps insertion order, and what the evaluator does with one value:
    PHP's empty() for ISBLANK, the literal text it builds for the value, and
    the text preg_replace writes when it is handed that literal. */
module FormValues {
  import opened Wrappers
  import opened PhpStrings
  import opened PregPatterns

  /** A form value as decoded from the request: null, a boolean, an integer or
      a string. */
  datatype Value = Null | Bool(b: bool) | Int(i: int) | Str(s: string)

  /** The form's entries in array order. A PHP array has no duplicate keys;
      the type does not rule them out, and with duplicates Lookup reads the
      first entry for a key while the substitution applies every entry. */
  type FormData = seq<(string, Value)>

  /** $formData[$key]: the value stored under key, if any. */
  function Lookup(form: FormData, key: string): (r: Option<Value>)
    ensures r.None? <==> forall k :: 0 <= k < |form| ==> form[k].0 != key
    ensures r.Some? ==> exists k :: 0 <= k < |form| && form[k] == (key, r.value)
  {
    if form == [] then None
    else if form[0].0 == key then Some(form[0].1)
    else
      var r := Lookup(form[1..], key);
      assert forall k :: 1 <= k < |form| ==> form[k] == form[1..][k - 1];
      r
  }

  /** PHP empty() on a value: null, false, 0, "" and "0" are empty. */
  predicate IsEmpty(v: Value) {
    match v
    case Null => true
    case Bool(b) => !b
    case Int(i) => i == 0
    case Str(s) => s == "" || s == "0"
  }

  /** The ISBLANK test: empty($formData[$key] ?? ''). */
  predicate IsBlank(form: FormData, key: string) {
    var v := match Lookup(form, key)
      case None => Str("")
      case Some(Null) => Str("")
      case Some(x) => x;
    IsEmpty(v)
  }

  /** A field is blank exactly when it is missing or holds null, false, 0, ""
      or "0". */
  lemma IsBlankCases(form: FormData, key: string)
    ensures IsBlank(form, key) <==>
      Lookup(form, key) in {None, Some(Null), Some(Bool(false)), Some(Int(0)), Some(Str("")), Some(Str("0"))}
  {
  }

  /** The text that replaces a field name in the formula: a string is quoted
      with single quotes after addslashes(), null is `null`, an integer is its
      decimal form, and a boolean is PHP's string form of it: "1" or "". */
  function Literal(v: Value): string {
    match v
    case Str(s) => "'" + AddSlashes(s) + "'"
    case Null => "null"
    case Int(i) => IntToString(i)
    case Bool(b) => if b then "1" else ""
  }

  /** The literal of a string is single-quoted, and stripslashes() of what lies
      between the quotes gives the string back. */
  lemma StringLiteralRoundTrip(s: string)
    ensures |Literal(Str(s))| >= 2
    ensures Literal(Str(s))[0] == '\'' && Literal(Str(s))[|Literal(Str(s))| - 1] == '\''
    ensures StripSlashes(Literal(Str(s))[1..|Literal(Str(s))| - 1]) == s
  {
    var l := Literal(Str(s));
    assert l[1..|l| - 1] == AddSlashes(s);
    StripSlashesAddSlashes(s);
  }

  /** The literal of an integer reads back as that integer. */
  lemma IntLiteralRoundTrip(i: int)
    ensures ParseInt(Literal(Int(i))) == Some(i)
  {
    IntToStringRoundTrip(i);
  }

  /** A string with a quote, double quote, backslash or NUL gets a backslash
      in its literal; a string with none of them is quoted as it is. */
  lemma StringLiteralEscapes(s: string)
    ensures (exists i :: 0 <= i < |s| && NeedsSlash(s[i])) ==> '\\' in Literal(Str(s))
    ensures (forall i :: 0 <= i < |s| ==> !NeedsSlash(s[i])) ==> Literal(Str(s)) == "'" + s + "'"
  {
    AddSlashesIdentity(s);
  }

  // ---------------------------------------------------------------------------
  // The literal as preg_replace writes it
  // ---------------------------------------------------------------------------

  /** What preg_replace('/\bNAME\b/', literal, ...) writes in place of the field
      name: the value's literal read as a replacement text, where the match is
      the name itself. */
  function Inserted(v: Value, name: string): string {
    ExpandReplacement(Literal(v), name)
  }

  /** The literals of null, booleans and integers hold no backslash and no
      dollar, so they are written as they are. */
  lemma InsertedPlain(v: Value, name: string)
    requires !v.Str?
    ensures Inserted(v, name) == Literal(v)
  {
    if v.Int? {
      IntToStringChars(v.i);
    }
    ExpandPlain(Literal(v), name);
  }

  /** The text written for the addslashes() form of a string without NUL or
      dollar: each quote and double quote keeps its backslash, and each doubled
      backslash is written as one. */
  function SlashedAsWritten(s: string): string {
    if s == [] then []
    else (if s[0] == '\'' || s[0] == '"' then ['\\', s[0]] else [s[0]]) + SlashedAsWritten(s[1..])
  }

  lemma ExpandPlainChar(c: char, u: string, whole: string)
    requires c != '\\' && c != '$'
    ensures ExpandReplacement([c] + u, whole) == [c] + ExpandReplacement(u, whole)
  {
    assert ([c] + u)[1..] == u;
  }

  lemma ExpandQuoted(c: char, u: string, whole: string)
    requires c == '\'' || c == '"'
    ensures ExpandReplacement(['\\', c] + u, whole) == ['\\', c] + ExpandReplacement(u, whole)
  {
    var rep := ['\\', c] + u;
    assert rep[1..] == [c] + u;
    ExpandLoneBackslash(rep, whole);
    ExpandPlainChar(c, u, whole);
  }

  /** A backslash before a character that is no digit, backslash, dollar or
      NUL is written as it is. */
  lemma ExpandLoneBackslash(rep: string, whole: string)
    requires |rep| >= 2 && rep[0] == '\\'
    requires !IsDigit(rep[1]) && rep[1] != '\\' && rep[1] != '$' && rep[1] != '\0'
    ensures ExpandReplacement(rep, whole) == ['\\'] + ExpandReplacement(rep[1..], whole)
  {
    assert BackrefAt(rep).None?;
  }

  lemma ExpandDoubledBackslash(u: string, whole: string)
    ensures ExpandReplacement(['\\', '\\'] + u, whole) == ['\\'] + ExpandReplacement(u, whole)
  {
    var rep := ['\\', '\\'] + u;
    assert rep[1] == '\\' && rep[2..] == u;
    assert BackrefAt(rep).None?;
  }

  /** preg_replace reads the addslashes() form of a string without NUL or
      dollar character by character. */
  lemma {:induction false} ExpandAddSlashes(s: string, t: string, whole: string)
    requires forall i :: 0 <= i < |s| ==> s[i] != '\0' && s[i] != '$'
    ensures ExpandReplacement(AddSlashes(s) + t, whole) == SlashedAsWritten(s) + ExpandReplacement(t, whole)
  {
    if s == [] {
      assert AddSlashes(s) + t == t;
    } else {
      var u := AddSlashes(s[1..]) + t;
      var c := s[0];
      assert forall i :: 0 <= i < |s| - 1 ==> s[1..][i] == s[i + 1];
      ExpandAddSlashes(s[1..], t, whole);
      AppendAssociative(Escaped(c), AddSlashes(s[1..]), t);
      if c == '\'' || c == '"' {
        assert Escaped(c) == ['\\', c];
        ExpandQuoted(c, u, whole);
      } else if c == '\\' {
        assert Escaped(c) == ['\\', '\\'];
        ExpandDoubledBackslash(u, whole);
      } else {
        assert Escaped(c) == [c];
        ExpandPlainChar(c, u, whole);
      }
      AppendAssociative(if c == '\'' || c == '"' then ['\\', c] else [c], SlashedAsWritten(s[1..]), ExpandReplacement(t, whole));
    }
  }

  /** The literal of a string without NUL or dollar, as written into the
      formula: between single quotes, each quote and double quote keeps its
      backslash and each backslash stays. */
  lemma InsertedString(s: string, name: string)
    requires forall i :: 0 <= i < |s| ==> s[i] != '\0' && s[i] != '$'
    ensures Inserted(Str(s), name) == "'" + SlashedAsWritten(s) + "'"
  {
    var q := "'";
    var a := AddSlashes(s);
    var w := SlashedAsWritten(s);
    assert q == ['\''];
    assert Literal(Str(s)) == q + a + q;
    AppendAssociative(q, a, q);
    ExpandPlainChar('\'', a + q, name);
    ExpandAddSlashes(s, q, name);
    assert ExpandReplacement(q, name) == q by {
      assert q == [q[0]] + [];
      ExpandPlainChar('\'', [], name);
    }
    AppendAssociative(q, w, q);
  }

  /** Written into the formula, the literal of a string without NUL or dollar
      holds a backslash exactly when the string holds a quote, a double quote
      or a backslash; without any character addslashes() escapes, it is the
      string between single quotes. */
  lemma InsertedStringEscapes(s: string, name: string)
    requires forall i :: 0 <= i < |s| ==> s[i] != '\0' && s[i] != '$'
    ensures '\\' in Inserted(Str(s), name) <==> exists i :: 0 <= i < |s| && (s[i] == '\'' || s[i] == '"' || s[i] == '\\')
    ensures (forall i :: 0 <= i < |s| ==> !NeedsSlash(s[i])) ==> Inserted(Str(s), name) == "'" + s + "'"
  {
    InsertedString(s, name);
    SlashedAsWrittenBackslash(s);
  }

  lemma {:induction false} SlashedAsWrittenBackslash(s: string)
    ensures '\\' in SlashedAsWritten(s) <==> exists i :: 0 <= i < |s| && (s[i] == '\'' || s[i] == '"' || s[i] == '\\')
    ensures (forall i :: 0 <= i < |s| ==> !NeedsSlash(s[i])) ==> SlashedAsWritten(s) == s
  {
    if s != [] {
      SlashedAsWrittenBackslash(s[1..]);
      assert forall i :: 0 <= i < |s| - 1 ==> s[1..][i] == s[i + 1];
      assert s == [s[0]] + s[1..];
      var e := if s[0] == '\'' || s[0] == '"' then ['\\', s[0]] else [s[0]];
      assert SlashedAsWritten(s) == e + SlashedAsWritten(s[1..]);
      assert '\\' in SlashedAsWritten(s) <==> '\\' in e || '\\' in SlashedAsWritten(s[1..]);
    }
  }

  /** A string value is read as a replacement text as well: `$1` writes
      nothing, and NUL, which addslashes() turns into `\0`, writes the field
      name. */
  lemma InsertedReadsReferences(name: string)
    ensures Inserted(Str("$1"), name) == "''"
    ensures Inserted(Str("\0"), name) == "'" + name + "'"
  {
    InsertedDollarOne(name);
    InsertedNul(name);
  }

  lemma InsertedDollarOne(name: string)
    ensures Inserted(Str("$1"), name) == "''"
  {
    var rep := ['$', '1', '\''];
    assert AddSlashes("$1") == "$1" by {
      AddSlashesIdentity("$1");
    }
    assert Literal(Str("$1")) == ['\''] + rep;
    assert BackrefAt(rep) == Some((1, 2));
    assert rep[2..] == ['\''] + [];
    ExpandPlainChar('\'', [], name);
    ExpandPlainChar('\'', rep, name);
  }

  lemma InsertedNul(name: string)
    ensures Inserted(Str("\0"), name) == "'" + name + "'"
  {
    var rep := ['\\', '0', '\''];
    assert AddSlashes("\0") == ['\\', '0'] by {
      assert AddSlashes("\0") == Escaped('\0') + AddSlashes([]);
    }
    assert Literal(Str("\0")) == ['\''] + rep;
    assert BackrefAt(rep) == Some((0, 2));
    assert rep[2..] == ['\''] + [];
    ExpandPlainChar('\'', [], name);
    ExpandPlainChar('\'', rep, name);
  }

  /** The insertion as evidently intended: the literal escaped for
      preg_replace first. */
  function IntendedInserted(v: Value, name: string): string {
    ExpandReplacement(EscapeReplacement(Literal(v)), name)
  }

  /** Escaped first, the literal arrives as built, so stripslashes() of what
      lies between the quotes gives a string value back. */
  lemma IntendedInsertedIsLiteral(v: Value, name: string)
    ensures IntendedInserted(v, name) == Literal(v)
    ensures v.Str? ==> |IntendedInserted(v, name)| >= 2
                       && StripSlashes(IntendedInserted(v, name)[1..|IntendedInserted(v, name)| - 1]) == v.s
  {
    EscapeReplacementRoundTrip(Literal(v), name);
    if v.Str? {
      StringLiteralRoundTrip(v.s);
    }
  }
}
