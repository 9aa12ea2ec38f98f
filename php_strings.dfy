/** Models of the PHP string functions the evaluator calls: trim, explode, implode,
    str_replace, strpos (for one character), addslashes with its inverse stripslashes,
    and the decimal string form of integers. A PHP string is a `seq<char>`. */
module PhpStrings {
  import opened Wrappers

  // ---------------------------------------------------------------------------
  // trim()
  // ---------------------------------------------------------------------------

  /** The characters trim() removes by default: space, tab, newline, carriage
      return, NUL and vertical tab. */
  predicate IsTrimChar(c: char) {
    c == ' ' || c == '\t' || c == '\n' || c == '\r' || c == '\0' || c == '\U{0B}'
  }

  function TrimLeft(s: string): (r: string)
    ensures |r| <= |s| && r == s[|s| - |r|..]
    ensures r == [] || !IsTrimChar(r[0])
  {
    if s != [] && IsTrimChar(s[0]) then TrimLeft(s[1..]) else s
  }

  function TrimRight(s: string): (r: string)
    ensures |r| <= |s| && r == s[..|r|]
    ensures r == [] || !IsTrimChar(r[|r| - 1])
  {
    if s != [] && IsTrimChar(s[|s| - 1]) then TrimRight(s[..|s| - 1]) else s
  }

  /** What TrimLeft drops is a run of trim characters. */
  lemma {:induction false} TrimLeftDropsTrimChars(s: string)
    ensures forall i :: 0 <= i < |s| - |TrimLeft(s)| ==> IsTrimChar(s[i])
    decreases |s|
  {
    if s != [] && IsTrimChar(s[0]) {
      TrimLeftDropsTrimChars(s[1..]);
      forall i | 1 <= i < |s| - |TrimLeft(s)|
        ensures IsTrimChar(s[i])
      {
        assert s[i] == s[1..][i - 1];
      }
    }
  }

  /** What TrimRight drops is a run of trim characters. */
  lemma {:induction false} TrimRightDropsTrimChars(s: string)
    ensures forall i :: |TrimRight(s)| <= i < |s| ==> IsTrimChar(s[i])
    decreases |s|
  {
    if s != [] && IsTrimChar(s[|s| - 1]) {
      TrimRightDropsTrimChars(s[..|s| - 1]);
      forall i | |TrimRight(s)| <= i < |s| - 1
        ensures IsTrimChar(s[i])
      {
        assert s[i] == s[..|s| - 1][i];
      }
    }
  }

  /** PHP trim($s). */
  function Trim(s: string): string {
    TrimRight(TrimLeft(s))
  }

  /** trim() removes a run of trim characters at each end and nothing else: the
      result is the slice s[lead..lead + |Trim(s)|], everything outside it is a
      trim character, and the result neither starts nor ends with one. */
  lemma TrimIsMaximalSlice(s: string) returns (lead: nat)
    ensures lead + |Trim(s)| <= |s|
    ensures Trim(s) == s[lead..lead + |Trim(s)|]
    ensures forall i :: 0 <= i < lead ==> IsTrimChar(s[i])
    ensures forall i :: lead + |Trim(s)| <= i < |s| ==> IsTrimChar(s[i])
    ensures Trim(s) == [] || (!IsTrimChar(Trim(s)[0]) && !IsTrimChar(Trim(s)[|Trim(s)| - 1]))
  {
    var l := TrimLeft(s);
    lead := |s| - |l|;
    var r := TrimRight(l);
    assert Trim(s) == r;
    PrefixOfSuffix(s, lead, |r|);
    assert r == [] || !IsTrimChar(r[0]) by {
      if r != [] {
        assert r[0] == l[0];
      }
    }
    TrimLeftDropsTrimChars(s);
    TrimRightDropsTrimChars(l);
  }

  /** Concatenation regroups freely. */
  lemma AppendAssociative<T>(a: seq<T>, b: seq<T>, c: seq<T>)
    ensures a + (b + c) == (a + b) + c
  {
  }

  /** The first n characters of the suffix of s from lead are the slice
      s[lead..lead + n], and the rest of the suffix is the rest of s. */
  lemma PrefixOfSuffix<T>(s: seq<T>, lead: nat, n: nat)
    requires lead + n <= |s|
    ensures s[lead..][..n] == s[lead..lead + n]
    ensures forall i :: lead + n <= i < |s| ==> s[i] == s[lead..][i - lead]
  {
  }

  /** Trimming twice is the same as trimming once. */
  lemma TrimIdempotent(s: string)
    ensures Trim(Trim(s)) == Trim(s)
  {
    var t := Trim(s);
    var _ := TrimIsMaximalSlice(s);
    if t != [] {
      assert TrimLeft(t) == t;
      assert TrimRight(t) == t;
    }
  }

  /** A text that neither starts nor ends with a trim character is its own
      trim(). */
  lemma TrimUntouched(s: string)
    requires s == [] || (!IsTrimChar(s[0]) && !IsTrimChar(s[|s| - 1]))
    ensures Trim(s) == s
  {
  }

  /** trim() drops a leading space before such a text. */
  lemma TrimLeadingSpace(s: string)
    requires s != [] && !IsTrimChar(s[0]) && !IsTrimChar(s[|s| - 1])
    ensures Trim(" " + s) == s
  {
    var t := " " + s;
    assert t[0] == ' ' && t[1..] == s;
    assert TrimLeft(t) == TrimLeft(s);
    TrimUntouched(s);
  }

  /** trim() adds no character: one absent from s is absent from trim(s). */
  lemma TrimKeepsAbsent(s: string, c: char)
    requires c !in s
    ensures c !in Trim(s)
  {
    var lead := TrimIsMaximalSlice(s);
    assert forall i :: 0 <= i < |Trim(s)| ==> Trim(s)[i] == s[lead + i];
  }

  // ---------------------------------------------------------------------------
  // strpos() for a single character
  // ---------------------------------------------------------------------------

  /** The index of the first occurrence of c in s, if any. */
  function IndexOf(s: string, c: char): (r: Option<nat>)
    ensures r.Some? ==> r.value < |s| && s[r.value] == c && c !in s[..r.value]
    ensures r.None? ==> c !in s
  {
    if s == [] then None
    else if s[0] == c then Some(0)
    else match IndexOf(s[1..], c)
      case None => None
      case Some(k) => assert s[..k + 1] == [s[0]] + s[1..][..k]; Some(k + 1)
  }

  /** The first occurrence of c is found right after a prefix that lacks c. */
  lemma {:induction false} IndexOfFirst(a: string, c: char, b: string)
    requires c !in a
    ensures IndexOf(a + [c] + b, c) == Some(|a|)
  {
    if a != [] {
      assert (a + [c] + b)[1..] == a[1..] + [c] + b;
      IndexOfFirst(a[1..], c, b);
    }
  }

  // ---------------------------------------------------------------------------
  // implode(), explode(), str_replace()
  // ---------------------------------------------------------------------------

  /** PHP implode($glue, $pieces). */
  function Implode(glue: string, pieces: seq<string>): string {
    if |pieces| == 0 then []
    else if |pieces| == 1 then pieces[0]
    else pieces[0] + glue + Implode(glue, pieces[1..])
  }

  /** explode($sep, $s) scanning from the left, where `piece` is the part of the
      current piece already read. */
  function ExplodeFrom(sep: string, s: string, piece: string): (r: seq<string>)
    requires sep != []
    ensures |r| >= 1
    decreases |s|
  {
    if s == [] then [piece]
    else if sep <= s then [piece] + ExplodeFrom(sep, s[|sep|..], [])
    else ExplodeFrom(sep, s[1..], piece + [s[0]])
  }

  /** PHP explode($sep, $s): the pieces between the leftmost non-overlapping
      occurrences of sep (always at least one piece). */
  function Explode(sep: string, s: string): (r: seq<string>)
    requires sep != []
    ensures |r| >= 1
  {
    ExplodeFrom(sep, s, [])
  }

  /** PHP str_replace($search, $replacement, $s) for one search string: the
      leftmost non-overlapping occurrences are replaced, scanning left to right. */
  function StrReplace(s: string, search: string, replacement: string): string
    requires search != []
    decreases |s|
  {
    if s == [] then []
    else if search <= s then replacement + StrReplace(s[|search|..], search, replacement)
    else [s[0]] + StrReplace(s[1..], search, replacement)
  }

  lemma {:induction false} StrReplaceFromPiece(s: string, search: string, replacement: string, piece: string)
    requires search != []
    ensures Implode(replacement, ExplodeFrom(search, s, piece)) == piece + StrReplace(s, search, replacement)
    decreases |s|
  {
    if s == [] {
    } else if search <= s {
      var rest := ExplodeFrom(search, s[|search|..], []);
      StrReplaceFromPiece(s[|search|..], search, replacement, []);
      assert ([piece] + rest)[1..] == rest;
    } else {
      StrReplaceFromPiece(s[1..], search, replacement, piece + [s[0]]);
    }
  }

  /** str_replace is explode followed by implode: the text between occurrences
      is kept verbatim and each occurrence becomes the replacement. */
  lemma StrReplaceIsImplodeExplode(s: string, search: string, replacement: string)
    requires search != []
    ensures StrReplace(s, search, replacement) == Implode(replacement, Explode(search, s))
  {
    StrReplaceFromPiece(s, search, replacement, []);
  }

  /** Replacing a string by itself changes nothing. */
  lemma {:induction false} StrReplaceSelf(s: string, search: string)
    requires search != []
    ensures StrReplace(s, search, search) == s
    decreases |s|
  {
    if s == [] {
    } else if search <= s {
      StrReplaceSelf(s[|search|..], search);
      assert s == search + s[|search|..];
    } else {
      StrReplaceSelf(s[1..], search);
      assert s == [s[0]] + s[1..];
    }
  }

  /** A string without any occurrence of the search string is left alone. */
  lemma {:induction false} StrReplaceAbsent(s: string, search: string, replacement: string)
    requires search != [] && search[0] !in s
    ensures StrReplace(s, search, replacement) == s
    decreases |s|
  {
    if s != [] {
      assert !(search <= s);
      StrReplaceAbsent(s[1..], search, replacement);
      assert s == [s[0]] + s[1..];
    }
  }

  /** Joining the pieces of explode() with the separator restores the string. */
  lemma ImplodeExplode(s: string, sep: string)
    requires sep != []
    ensures Implode(sep, Explode(sep, s)) == s
  {
    StrReplaceIsImplodeExplode(s, sep, sep);
    StrReplaceSelf(s, sep);
  }

  lemma {:induction false} ExplodeFromCopies(c: char, p: string, t: string, piece: string)
    requires c !in p
    ensures ExplodeFrom([c], p + t, piece) == ExplodeFrom([c], t, piece + p)
    decreases |p|
  {
    if p != [] {
      assert (p + t)[1..] == p[1..] + t;
      assert (p + t)[0] == p[0] != c;
      ExplodeFromCopies(c, p[1..], t, piece + [p[0]]);
      assert piece + [p[0]] + p[1..] == piece + p;
    } else {
      assert p + t == t && piece + p == piece;
    }
  }

  /** Splitting on a one-character separator undoes joining with it, provided no
      piece contains the separator. */
  lemma {:induction false} ExplodeImplode(c: char, pieces: seq<string>)
    requires |pieces| >= 1
    requires forall k :: 0 <= k < |pieces| ==> c !in pieces[k]
    ensures Explode([c], Implode([c], pieces)) == pieces
    decreases |pieces|
  {
    if |pieces| == 1 {
      ExplodeFromCopies(c, pieces[0], [], []);
      assert pieces[0] + [] == pieces[0];
    } else {
      var rest := Implode([c], pieces[1..]);
      ExplodeFromCopies(c, pieces[0], [c] + rest, []);
      assert [] + pieces[0] == pieces[0];
      assert pieces[0] + [c] + rest == pieces[0] + ([c] + rest);
      assert ([c] + rest)[1..] == rest;
      ExplodeImplode(c, pieces[1..]);
      assert pieces == [pieces[0]] + pieces[1..];
    }
  }

  // ---------------------------------------------------------------------------
  // addslashes() and stripslashes()
  // ---------------------------------------------------------------------------

  /** The characters addslashes() escapes with a backslash. */
  predicate NeedsSlash(c: char) {
    c == '\'' || c == '"' || c == '\\' || c == '\0'
  }

  function Escaped(c: char): string {
    if c == '\0' then ['\\', '0'] else if NeedsSlash(c) then ['\\', c] else [c]
  }

  /** PHP addslashes($s): a backslash before each quote, double quote and
      backslash; NUL becomes backslash-zero. */
  function AddSlashes(s: string): (r: string)
    ensures |s| <= |r| <= 2 * |s|
  {
    if s == [] then [] else Escaped(s[0]) + AddSlashes(s[1..])
  }

  /** PHP stripslashes($s): a backslash is dropped and the character after it
      kept, except that backslash-zero gives NUL; a trailing backslash is dropped. */
  function StripSlashes(s: string): string {
    if s == [] then []
    else if s[0] == '\\' then
      if |s| == 1 then []
      else (if s[1] == '0' then ['\0'] else [s[1]]) + StripSlashes(s[2..])
    else [s[0]] + StripSlashes(s[1..])
  }

  /** stripslashes() inverts addslashes(). */
  lemma {:induction false} StripSlashesAddSlashes(s: string)
    ensures StripSlashes(AddSlashes(s)) == s
  {
    if s != [] {
      StripSlashesAddSlashes(s[1..]);
      StripEscaped(s[0], AddSlashes(s[1..]));
      assert s == [s[0]] + s[1..];
    }
  }

  /** stripslashes() reads an escaped character back. */
  lemma StripEscaped(c: char, t: string)
    ensures StripSlashes(Escaped(c) + t) == [c] + StripSlashes(t)
  {
    var e := Escaped(c);
    if |e| == 2 {
      assert (e + t)[0] == '\\' && (e + t)[1] == e[1];
      assert (e + t)[2..] == t;
    } else {
      assert (e + t)[1..] == t;
    }
  }

  /** addslashes() leaves a string alone exactly when it has nothing to escape;
      otherwise its result contains a backslash. */
  lemma {:induction false} AddSlashesIdentity(s: string)
    ensures AddSlashes(s) == s <==> forall i :: 0 <= i < |s| ==> !NeedsSlash(s[i])
    ensures (exists i :: 0 <= i < |s| && NeedsSlash(s[i])) ==> '\\' in AddSlashes(s)
  {
    if s != [] {
      AddSlashesIdentity(s[1..]);
      AddSlashesLength(s[1..]);
      assert s == [s[0]] + s[1..];
      if NeedsSlash(s[0]) {
        assert |AddSlashes(s)| > |s|;
        assert AddSlashes(s)[0] == '\\';
      } else {
        assert forall i :: 1 <= i < |s| ==> s[i] == s[1..][i - 1];
        if exists i :: 0 <= i < |s| && NeedsSlash(s[i]) {
          var i :| 0 <= i < |s| && NeedsSlash(s[i]);
          assert NeedsSlash(s[1..][i - 1]);
          assert '\\' in AddSlashes(s[1..]);
        }
      }
    }
  }

  lemma {:induction false} AddSlashesLength(s: string)
    ensures |AddSlashes(s)| >= |s|
  {
    if s != [] {
      AddSlashesLength(s[1..]);
    }
  }

  // ---------------------------------------------------------------------------
  // The decimal string form of integers
  // ---------------------------------------------------------------------------

  predicate IsDigit(c: char) {
    '0' <= c <= '9'
  }

  predicate AllDigits(s: string) {
    forall i :: 0 <= i < |s| ==> IsDigit(s[i])
  }

  function DigitChar(d: nat): (c: char)
    requires d < 10
    ensures IsDigit(c)
  {
    ('0' as int + d) as char
  }

  /** The decimal digits of n, without leading zeros. */
  function NatToString(n: nat): (r: string)
    ensures |r| >= 1 && AllDigits(r)
    ensures |r| > 1 ==> r[0] != '0'
  {
    if n < 10 then [DigitChar(n)] else NatToString(n / 10) + [DigitChar(n % 10)]
  }

  /** PHP's string form of an integer: its decimal digits, preceded by a minus
      sign when it is negative. */
  function IntToString(i: int): string {
    if i < 0 then "-" + NatToString(-i) else NatToString(i)
  }

  /** The string form of an integer is not empty and holds only digits and a
      minus sign. */
  lemma IntToStringChars(v: int)
    ensures IntToString(v) != []
    ensures forall i :: 0 <= i < |IntToString(v)| ==> IsDigit(IntToString(v)[i]) || IntToString(v)[i] == '-'
    // It never ends in `!`, so an `=` written after it is not read as part of `!=`.
    ensures IntToString(v)[|IntToString(v)| - 1] != '!'
  {
    if v < 0 {
      assert forall i :: 1 <= i < |IntToString(v)| ==> IntToString(v)[i] == NatToString(-v)[i - 1];
    }
  }

  /** The number a string of decimal digits denotes. */
  function DigitsToNat(s: string): nat
    requires AllDigits(s)
  {
    if s == [] then 0 else 10 * DigitsToNat(s[..|s| - 1]) + (s[|s| - 1] as int - '0' as int)
  }

  /** Reads back a decimal integer with an optional leading minus sign. */
  function ParseInt(s: string): Option<int> {
    if |s| >= 2 && s[0] == '-' && AllDigits(s[1..]) then
      var magnitude: int := DigitsToNat(s[1..]); Some(-magnitude)
    else if s != [] && AllDigits(s) then Some(DigitsToNat(s))
    else None
  }

  lemma {:induction false} NatToStringRoundTrip(n: nat)
    ensures DigitsToNat(NatToString(n)) == n
    decreases n
  {
    if n >= 10 {
      NatToStringRoundTrip(n / 10);
      var r := NatToString(n);
      assert r[..|r| - 1] == NatToString(n / 10);
    }
  }

  /** The string form of an integer reads back as that integer. */
  lemma IntToStringRoundTrip(i: int)
    ensures ParseInt(IntToString(i)) == Some(i)
  {
    if i < 0 {
      NatToStringRoundTrip(-i);
      assert IntToString(i)[1..] == NatToString(-i);
    } else {
      NatToStringRoundTrip(i);
    }
  }

  /** '0' repeated n times. */
  function Zeros(n: nat): (r: string)
    ensures |r| == n && AllDigits(r)
  {
    if n == 0 then [] else Zeros(n - 1) + ['0']
  }

  /** The decimal digits of n, padded on the left with zeros to at least
      `width` characters. */
  function PadNat(n: nat, width: nat): (r: string)
    ensures AllDigits(r) && |r| >= width
  {
    var digits := NatToString(n);
    if |digits| >= width then digits else Zeros(width - |digits|) + digits
  }

  lemma {:induction false} LeadingZeros(z: nat, s: string)
    requires AllDigits(s)
    ensures DigitsToNat(Zeros(z) + s) == DigitsToNat(s)
    decreases |s|
  {
    if s == [] {
      assert Zeros(z) + s == Zeros(z);
      ZerosDenoteZero(z);
    } else {
      assert (Zeros(z) + s)[..|Zeros(z) + s| - 1] == Zeros(z) + s[..|s| - 1];
      LeadingZeros(z, s[..|s| - 1]);
    }
  }

  lemma {:induction false} ZerosDenoteZero(z: nat)
    ensures DigitsToNat(Zeros(z)) == 0
  {
    if z > 0 {
      assert Zeros(z)[..z - 1] == Zeros(z - 1);
      ZerosDenoteZero(z - 1);
    }
  }

  /** Zero padding does not change the number the digits denote. */
  lemma PadNatRoundTrip(n: nat, width: nat)
    ensures DigitsToNat(PadNat(n, width)) == n
  {
    var digits := NatToString(n);
    NatToStringRoundTrip(n);
    if |digits| < width {
      assert PadNat(n, width) == Zeros(width - |digits|) + digits;
      LeadingZeros(width - |digits|, digits);
    } else {
      assert PadNat(n, width) == digits;
    }
  }
}
