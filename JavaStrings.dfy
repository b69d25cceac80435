/**
  The java.lang.String operations the validators depend on: `trim`, `isBlank`,
  `isEmpty` and `equalsIgnoreCase`.
*/
module JavaStrings {

  /** `String.trim()` removes, from both ends, every character whose code is at most U+0020. */
  predicate Trimmable(c: char) {
    c <= ' '
  }

  /** Drops the leading trimmable characters. */
  function TrimStart(s: string): (r: string)
    ensures |r| <= |s| && r == s[|s| - |r|..]
    ensures forall k :: 0 <= k < |s| - |r| ==> Trimmable(s[k])
    ensures r == [] || !Trimmable(r[0])
  {
    if |s| > 0 && Trimmable(s[0]) then TrimStart(s[1..]) else s
  }

  /** Drops the trailing trimmable characters. */
  function TrimEnd(s: string): (r: string)
    ensures |r| <= |s| && r == s[..|r|]
    ensures forall k :: |r| <= k < |s| ==> Trimmable(s[k])
    ensures r == [] || !Trimmable(r[|r| - 1])
  {
    if |s| > 0 && Trimmable(s[|s| - 1]) then TrimEnd(s[..|s| - 1]) else s
  }

  /** Java's `s.trim()`. */
  function Trim(s: string): (r: string)
    ensures |r| <= |s|
    ensures r == [] || (!Trimmable(r[0]) && !Trimmable(r[|r| - 1]))
    ensures r == [] <==> forall k :: 0 <= k < |s| ==> Trimmable(s[k])
  {
    TrimEnd(TrimStart(s))
  }

  /**
    `trim` keeps the infix left once a trimmable prefix and a trimmable suffix are dropped;
    with the end characters of `Trim`'s contract, both runs are as long as they can be.
  */
  lemma TrimIsInfix(s: string)
    ensures exists i, j :: 0 <= i <= j <= |s| && Trim(s) == s[i..j]
                           && (forall k :: 0 <= k < i ==> Trimmable(s[k]))
                           && (forall k :: j <= k < |s| ==> Trimmable(s[k]))
  {
    var t := TrimStart(s);
    var i := |s| - |t|;
    var r := TrimEnd(t);
    assert r == s[i..i + |r|];
    assert forall k :: i + |r| <= k < |s| ==> s[k] == t[k - i];
  }

  /** A string with nothing to trim at either end is its own trim. */
  lemma TrimOfTrimmed(s: string)
    requires s == [] || (!Trimmable(s[0]) && !Trimmable(s[|s| - 1]))
    ensures Trim(s) == s
  {
    assert TrimStart(s) == s;
    assert TrimEnd(s) == s;
  }

  /** Trimming twice is trimming once. */
  lemma TrimIdempotent(s: string)
    ensures Trim(Trim(s)) == Trim(s)
  {
    TrimOfTrimmed(Trim(s));
  }

  /**
    `Character.isWhitespace`: the Unicode space, line and paragraph separators other than
    the no-break spaces U+00A0, U+2007 and U+202F, plus the controls U+0009 to U+000D and
    U+001C to U+001F.
  */
  predicate IsWhitespace(c: char) {
    || ('\t' <= c <= '\r')
    || ('\U{001C}' <= c <= ' ')
    || c == '\U{1680}'
    || ('\U{2000}' <= c <= '\U{2006}')
    || ('\U{2008}' <= c <= '\U{200A}')
    || c == '\U{2028}' || c == '\U{2029}' || c == '\U{205F}' || c == '\U{3000}'
  }

  /**
    Whitespace and `trim` overlap without nesting: the no-break spaces are not whitespace,
    and whitespace beyond U+0020 lies between U+1680 and U+3000, out of `trim`'s reach.
  */
  lemma WhitespaceAgainstTrim(c: char)
    ensures c == '\U{00A0}' || c == '\U{2007}' || c == '\U{202F}' ==> !IsWhitespace(c)
    ensures c == ' ' || c == '\t' || c == '\n' || c == '\r' ==> IsWhitespace(c) && Trimmable(c)
    ensures IsWhitespace(c) && !Trimmable(c) ==> '\U{1680}' <= c <= '\U{3000}'
  {
  }

  /** Java 11's `s.isBlank()`: every character is whitespace (so the empty string is blank). */
  predicate IsBlank(s: string) {
    forall k :: 0 <= k < |s| ==> IsWhitespace(s[k])
  }

  /** A blank string stays blank once trimmed. */
  lemma BlankStaysBlankWhenTrimmed(s: string)
    requires IsBlank(s)
    ensures IsBlank(Trim(s))
  {
    var t := TrimStart(s);
    assert forall k :: 0 <= k < |t| ==> t[k] == s[|s| - |t| + k];
    var r := TrimEnd(t);
    assert forall k :: 0 <= k < |r| ==> r[k] == t[k];
  }

  /**
    The converse fails: a control character such as U+0000 is not whitespace, so the string
    is not blank, but `trim` removes it and leaves the empty, blank string.
  */
  lemma ControlCharacterIsBlankOnlyAfterTrim()
    ensures !IsBlank("\U{0000}") && IsBlank(Trim("\U{0000}"))
  {
    assert !IsWhitespace("\U{0000}"[0]);
  }

  /**
    `String.length()`: the number of UTF-16 code units, so a character above U+FFFF
    (a surrogate pair) counts twice.
  */
  function Utf16Length(s: string): (n: nat)
    ensures |s| <= n <= 2 * |s|
  {
    if s == [] then 0 else (if s[0] < '\U{10000}' then 1 else 2) + Utf16Length(s[1..])
  }

  /** One character counts one UTF-16 unit below U+10000 and two (a surrogate pair) above. */
  lemma Utf16LengthOfCharacter(c: char)
    ensures Utf16Length([c]) == if c < '\U{10000}' then 1 else 2
  {
    assert [c][1..] == [];
  }

  /** The UTF-16 length of a concatenation is the sum of the lengths of its parts. */
  lemma {:induction false} Utf16LengthOfConcat(a: string, b: string)
    ensures Utf16Length(a + b) == Utf16Length(a) + Utf16Length(b)
  {
    if a != [] {
      assert (a + b)[1..] == a[1..] + b;
      Utf16LengthOfConcat(a[1..], b);
    } else {
      assert a + b == b;
    }
  }

  /** An example of mixed text: "a" then an emoji count three units, as `length()` does. */
  lemma Utf16LengthOfMixedText()
    ensures Utf16Length("a\U{1F600}") == 3
  {
    assert "a\U{1F600}" == "a" + "\U{1F600}";
    Utf16LengthOfConcat("a", "\U{1F600}");
    Utf16LengthOfCharacter('a');
    Utf16LengthOfCharacter('\U{1F600}');
  }

  /**
    Text within the Basic Multilingual Plane has one unit per character; text made only of
    characters above U+FFFF has two.
  */
  lemma {:induction false} Utf16LengthOfUniformText(s: string)
    ensures (forall k :: 0 <= k < |s| ==> s[k] < '\U{10000}') ==> Utf16Length(s) == |s|
    ensures (forall k :: 0 <= k < |s| ==> s[k] >= '\U{10000}') ==> Utf16Length(s) == 2 * |s|
  {
    if s != [] {
      Utf16LengthOfUniformText(s[1..]);
    }
  }

  /**
    Simple case folding of one character: an upper-case letter of Basic Latin, Latin-1,
    Greek or Cyrillic becomes its lower-case form; every other character stays as it is.
  */
  function FoldChar(c: char): char {
    if 'A' <= c <= 'Z' then (c as int + 32) as char
    else if '\U{00C0}' <= c <= '\U{00DE}' && c != '\U{00D7}' then (c as int + 32) as char
    else if '\U{0391}' <= c <= '\U{03A9}' && c != '\U{03A2}' then (c as int + 32) as char
    else if '\U{0410}' <= c <= '\U{042F}' then (c as int + 32) as char
    else if '\U{0400}' <= c <= '\U{040F}' then (c as int + 80) as char
    else c
  }

  /** The per-character case fold of a string. */
  function Fold(s: string): (r: string)
    ensures |r| == |s|
  {
    seq(|s|, k requires 0 <= k < |s| => FoldChar(s[k]))
  }

  /** `a.equalsIgnoreCase(b)`, and SQL `upper(a) = upper(b)`: equal after case folding. */
  predicate EqualsIgnoreCase(a: string, b: string) {
    Fold(a) == Fold(b)
  }

  /** Equality ignoring case is an equivalence, and relates strings of the same length only. */
  lemma EqualsIgnoreCaseIsEquivalence(a: string, b: string, c: string)
    ensures EqualsIgnoreCase(a, a)
    ensures EqualsIgnoreCase(a, b) ==> EqualsIgnoreCase(b, a) && |a| == |b|
    ensures EqualsIgnoreCase(a, b) && EqualsIgnoreCase(b, c) ==> EqualsIgnoreCase(a, c)
  {
  }

  /** Strings that differ only in the case of a letter are equal ignoring case. */
  lemma CaseIsIgnored()
    ensures "Dup" != "DUP" && EqualsIgnoreCase("Dup", "DUP")
  {
    assert "Dup"[1] != "DUP"[1];
    assert Fold("Dup") == Fold("DUP") == "dup";
  }
}
