/** ASCII string helpers standing in for the parts of Go's `strings` and `fmt`
    packages that the command-line tool relies on. Strings are sequences of
    characters; case folding and white space are restricted to ASCII. */
module Text {
  import opened Results

  // ---------------------------------------------------------------------------
  // Characters

  /** The ASCII white-space characters recognised by `strings.TrimSpace`. */
  predicate IsSpace(c: char) {
    c == ' ' || c == '\t' || c == '\n' || c == '\U{000B}' || c == '\U{000C}' || c == '\r'
  }

  predicate IsLowerLetter(c: char) {
    'a' <= c <= 'z'
  }

  predicate IsDigit(c: char) {
    '0' <= c <= '9'
  }

  /** ASCII lower-casing of one character; every other character is unchanged. */
  function LowerChar(c: char): (r: char)
    ensures 'A' <= c <= 'Z' ==> IsLowerLetter(r)
    ensures !('A' <= c <= 'Z') ==> r == c
  {
    if 'A' <= c <= 'Z' then (c as int + 32) as char else c
  }

  /** `strings.ToLower`, restricted to ASCII. */
  function ToLower(s: string): (r: string)
    ensures |r| == |s|
  {
    if |s| == 0 then "" else [LowerChar(s[0])] + ToLower(s[1..])
  }

  /** `ToLower` works character by character. */
  lemma {:induction false} ToLowerChars(s: string)
    ensures forall k :: 0 <= k < |s| ==> ToLower(s)[k] == LowerChar(s[k])
  {
    if |s| > 0 {
      ToLowerChars(s[1..]);
      assert forall k :: 1 <= k < |s| ==> ToLower(s)[k] == ToLower(s[1..])[k - 1];
    }
  }

  /** A string without upper-case ASCII letters is its own lower-casing. */
  lemma ToLowerNoUpper(s: string)
    requires forall k :: 0 <= k < |s| ==> !('A' <= s[k] <= 'Z')
    ensures ToLower(s) == s
  {
    var r := ToLower(s);
    ToLowerChars(s);
    assert forall k :: 0 <= k < |s| ==> r[k] == s[k];
  }

  /** Lower-casing is idempotent. */
  lemma ToLowerIdempotent(s: string)
    ensures ToLower(ToLower(s)) == ToLower(s)
  {
    var r := ToLower(s);
    ToLowerChars(s);
    forall k | 0 <= k < |r|
      ensures !('A' <= r[k] <= 'Z')
    {
      assert r[k] == LowerChar(s[k]);
    }
    ToLowerNoUpper(r);
  }

  // ---------------------------------------------------------------------------
  // Trimming

  /** The length of the longest prefix whose characters all satisfy `drop`. */
  function LeftCount(s: string, drop: char -> bool): (n: nat)
    ensures n <= |s|
  {
    if |s| > 0 && drop(s[0]) then 1 + LeftCount(s[1..], drop) else 0
  }

  /** Every character of the prefix satisfies `drop`; the next one does not. */
  lemma {:induction false} LeftCountFacts(s: string, drop: char -> bool)
    ensures forall k :: 0 <= k < LeftCount(s, drop) ==> drop(s[k])
    ensures LeftCount(s, drop) < |s| ==> !drop(s[LeftCount(s, drop)])
  {
    if |s| > 0 && drop(s[0]) {
      LeftCountFacts(s[1..], drop);
      forall k | 1 <= k < LeftCount(s, drop)
        ensures drop(s[k])
      {
        assert s[k] == s[1..][k - 1];
      }
      if LeftCount(s, drop) < |s| {
        assert s[LeftCount(s, drop)] == s[1..][LeftCount(s[1..], drop)];
      }
    }
  }

  /** The length of what is left once the longest suffix whose characters all
      satisfy `drop` is removed. */
  function RightEnd(s: string, drop: char -> bool): (n: nat)
    ensures n <= |s|
  {
    if |s| > 0 && drop(s[|s| - 1]) then RightEnd(s[..|s| - 1], drop) else |s|
  }

  /** Every character after the end satisfies `drop`; the last one kept does not. */
  lemma {:induction false} RightEndFacts(s: string, drop: char -> bool)
    ensures forall k :: RightEnd(s, drop) <= k < |s| ==> drop(s[k])
    ensures RightEnd(s, drop) > 0 ==> !drop(s[RightEnd(s, drop) - 1])
  {
    if |s| > 0 && drop(s[|s| - 1]) {
      RightEndFacts(s[..|s| - 1], drop);
      forall k | RightEnd(s, drop) <= k < |s| - 1
        ensures drop(s[k])
      {
        assert s[k] == s[..|s| - 1][k];
      }
    }
  }

  /** `strings.TrimLeftFunc`. */
  function TrimLeft(s: string, drop: char -> bool): string {
    s[LeftCount(s, drop)..]
  }

  /** `strings.TrimRightFunc`. */
  function TrimRight(s: string, drop: char -> bool): string {
    s[..RightEnd(s, drop)]
  }

  /** `strings.Trim`/`TrimFunc`: drops the longest prefix and suffix whose characters
      satisfy `drop`. */
  function Trim(s: string, drop: char -> bool): (r: string)
    ensures |r| <= |s|
  {
    TrimRight(TrimLeft(s, drop), drop)
  }

  /** The ends of a trimmed string are kept characters, and the result is empty
      exactly when every character is dropped. */
  lemma TrimFacts(s: string, drop: char -> bool)
    ensures var r := Trim(s, drop);
      && (|r| > 0 ==> !drop(r[0]) && !drop(r[|r| - 1]))
      && (r == "" <==> forall k :: 0 <= k < |s| ==> drop(s[k]))
  {
    var i := LeftCount(s, drop);
    var l := s[i..];
    LeftCountFacts(s, drop);
    RightEndFacts(l, drop);
    if i < |s| {
      assert s[i] == l[0];
    }
  }

  /** What `Trim` keeps is one contiguous run of the original string. */
  lemma TrimSlice(s: string, drop: char -> bool)
    ensures var i := LeftCount(s, drop);
      i + |Trim(s, drop)| <= |s| && Trim(s, drop) == s[i..i + |Trim(s, drop)|]
  {
  }

  /** `strings.TrimSpace` over ASCII white space. */
  function TrimSpace(s: string): (r: string)
    ensures |r| <= |s|
  {
    Trim(s, IsSpace)
  }

  /** `TrimSpace` leaves no white space at either end, and gives the empty string
      exactly for blank input. */
  lemma TrimSpaceFacts(s: string)
    ensures var r := TrimSpace(s);
      && (|r| > 0 ==> !IsSpace(r[0]) && !IsSpace(r[|r| - 1]))
      && (r == "" <==> forall k :: 0 <= k < |s| ==> IsSpace(s[k]))
  {
    TrimFacts(s, IsSpace);
  }

  /** A string with no white space at either end is its own `TrimSpace`. */
  lemma TrimSpaceNoEdges(s: string)
    requires |s| > 0 ==> !IsSpace(s[0]) && !IsSpace(s[|s| - 1])
    ensures TrimSpace(s) == s
  {
    assert LeftCount(s, IsSpace) == 0;
    assert RightEnd(s, IsSpace) == |s|;
  }

  /** `strings.ToLower(strings.TrimSpace(s))`, the form in which the tool compares
      names and environment values. */
  function Normalize(s: string): string {
    ToLower(TrimSpace(s))
  }

  /** Normalisation is idempotent. */
  lemma NormalizeIdempotent(value: string)
    ensures Normalize(Normalize(value)) == Normalize(value)
  {
    var t := TrimSpace(value);
    var n := ToLower(t);
    TrimSpaceFacts(value);
    ToLowerChars(t);
    if |n| > 0 {
      assert n[0] == LowerChar(t[0]);
      assert n[|n| - 1] == LowerChar(t[|t| - 1]);
    }
    TrimSpaceNoEdges(n);
    ToLowerIdempotent(t);
  }

  /** A word of lower-case letters and digits is in normal form. */
  lemma NormalWord(s: string)
    requires forall k :: 0 <= k < |s| ==> IsLowerLetter(s[k]) || IsDigit(s[k])
    ensures Normalize(s) == s
  {
    TrimSpaceNoEdges(s);
    ToLowerNoUpper(s);
  }

  // ---------------------------------------------------------------------------
  // Searching

  predicate HasPrefix(s: string, prefix: string) {
    |prefix| <= |s| && s[..|prefix|] == prefix
  }

  /** True when `sub` occurs at position `i` of `s`. */
  predicate OccursAt(s: string, sub: string, i: int) {
    0 <= i <= |s| - |sub| && s[i..i + |sub|] == sub
  }

  /** `strings.Contains`, by scanning every start position. */
  function Contains(s: string, sub: string): (r: bool)
    ensures r <==> exists i :: OccursAt(s, sub, i)
  {
    if |s| < |sub| then false
    else if HasPrefix(s, sub) then
      assert OccursAt(s, sub, 0);
      true
    else
      var r := Contains(s[1..], sub);
      if r then
        var i :| OccursAt(s[1..], sub, i);
        assert OccursAt(s, sub, i + 1);
        r
      else
        assert forall i :: OccursAt(s, sub, i) ==> i > 0 && OccursAt(s[1..], sub, i - 1);
        r
  }

  // ---------------------------------------------------------------------------
  // Splitting and joining on a separator character

  /** `strings.Split(s, string(sep))`: the pieces between separators, in order;
      the empty string splits into one empty piece. */
  function Split(s: string, sep: char): (r: seq<string>)
    ensures |r| >= 1
    ensures forall k :: 0 <= k < |r| ==> sep !in r[k]
  {
    if |s| == 0 then [""]
    else
      var rest := Split(s[1..], sep);
      if s[0] == sep then [""] + rest
      else [[s[0]] + rest[0]] + rest[1..]
  }

  /** `strings.Join(segs, string(sep))`. */
  function Join(segs: seq<string>, sep: char): string
  {
    if |segs| == 0 then ""
    else if |segs| == 1 then segs[0]
    else segs[0] + [sep] + Join(segs[1..], sep)
  }

  /** Joining the pieces of a split restores the original string. */
  lemma {:induction false} JoinSplit(s: string, sep: char)
    ensures Join(Split(s, sep), sep) == s
  {
    if |s| > 0 {
      var rest := Split(s[1..], sep);
      JoinSplit(s[1..], sep);
      if s[0] == sep {
        assert Split(s, sep) == [""] + rest;
        assert Join([""] + rest, sep) == "" + [sep] + Join(rest, sep);
      } else if |rest| == 1 {
        assert Split(s, sep) == [[s[0]] + rest[0]];
      } else {
        var segs := Split(s, sep);
        assert segs[1..] == rest[1..];
        assert Join(rest, sep) == rest[0] + [sep] + Join(rest[1..], sep);
        assert Join(segs, sep) == [s[0]] + rest[0] + [sep] + Join(rest[1..], sep);
        assert [s[0]] + s[1..] == s;
      }
    }
  }

  /** A piece free of the separator glues onto the first piece of what follows it. */
  lemma {:induction false} SplitPrepend(a: string, t: string, sep: char)
    requires sep !in a
    ensures Split(a + t, sep) == [a + Split(t, sep)[0]] + Split(t, sep)[1..]
  {
    if |a| > 0 {
      SplitPrepend(a[1..], t, sep);
      assert (a + t)[1..] == a[1..] + t;
      assert [a[0]] + (a[1..] + Split(t, sep)[0]) == a + Split(t, sep)[0];
    } else {
      assert a + t == t;
      assert a + Split(t, sep)[0] == Split(t, sep)[0];
      assert Split(t, sep) == [Split(t, sep)[0]] + Split(t, sep)[1..];
    }
  }

  /** Splitting a join of separator-free pieces gives back those pieces. */
  lemma {:induction false} SplitJoin(segs: seq<string>, sep: char)
    requires |segs| >= 1
    requires forall k :: 0 <= k < |segs| ==> sep !in segs[k]
    ensures Split(Join(segs, sep), sep) == segs
  {
    if |segs| == 1 {
      SplitPrepend(segs[0], "", sep);
      assert segs[0] + "" == segs[0];
    } else {
      var tail := Join(segs[1..], sep);
      SplitJoin(segs[1..], sep);
      assert Split([sep] + tail, sep) == [""] + segs[1..] by {
        assert ([sep] + tail)[1..] == tail;
      }
      assert Join(segs, sep) == segs[0] + ([sep] + tail);
      SplitPrepend(segs[0], [sep] + tail, sep);
      assert segs[0] + "" == segs[0];
    }
  }

  /** The first piece of a string that does not start with the separator is
      non-empty and starts with the string's first character. */
  lemma SplitHead(s: string, sep: char)
    requires |s| > 0 && s[0] != sep
    ensures Split(s, sep)[0] != "" && Split(s, sep)[0][0] == s[0]
  {
  }

  /** Every character of a piece comes from the split string. */
  lemma {:induction false} SplitChars(s: string, sep: char, k: nat, c: char)
    requires k < |Split(s, sep)| && c in Split(s, sep)[k]
    ensures c in s
  {
    if |s| > 0 {
      var rest := Split(s[1..], sep);
      if s[0] == sep {
        if k > 0 {
          SplitChars(s[1..], sep, k - 1, c);
        }
      } else if k == 0 {
        if c != s[0] {
          assert c in rest[0];
          SplitChars(s[1..], sep, 0, c);
        }
      } else {
        assert Split(s, sep)[k] == rest[k];
        SplitChars(s[1..], sep, k, c);
      }
    }
  }

  /** A joined string starts with its first piece. */
  lemma JoinHead(segs: seq<string>, sep: char)
    requires |segs| >= 1
    ensures HasPrefix(Join(segs, sep), segs[0])
  {
  }

  /** Every character of a join is the separator or comes from one of the pieces. */
  lemma {:induction false} JoinChars(segs: seq<string>, sep: char, c: char)
    requires c in Join(segs, sep)
    ensures c == sep || exists k :: 0 <= k < |segs| && c in segs[k]
  {
    if |segs| > 1 && c != sep && c !in segs[0] {
      assert c in Join(segs[1..], sep);
      JoinChars(segs[1..], sep, c);
      var k :| 0 <= k < |segs| - 1 && c in segs[1..][k];
      assert c in segs[k + 1];
    }
  }

  // ---------------------------------------------------------------------------
  // Decimal and hexadecimal numerals

  function DigitChar(d: nat): (c: char)
    requires d < 10
    ensures IsDigit(c)
  {
    ('0' as int + d) as char
  }

  function DigitValue(c: char): (d: nat)
    requires IsDigit(c)
    ensures d < 10
  {
    c as int - '0' as int
  }

  /** `%d` of a non-negative integer: its shortest decimal numeral. */
  function NatToString(n: nat): (r: string)
    ensures |r| >= 1
    ensures forall k :: 0 <= k < |r| ==> IsDigit(r[k])
    ensures n >= 10 ==> r[0] != '0'
  {
    if n < 10 then [DigitChar(n)] else NatToString(n / 10) + [DigitChar(n % 10)]
  }

  /** `%d` of any integer. */
  function IntToString(n: int): (r: string)
    ensures |r| >= 1
  {
    if n < 0 then "-" + NatToString(-n) else NatToString(n)
  }

  /** The value of a numeral made of decimal digits only. */
  function DigitsValue(s: string): nat
    requires forall k :: 0 <= k < |s| ==> IsDigit(s[k])
  {
    if |s| == 0 then 0 else 10 * DigitsValue(s[..|s| - 1]) + DigitValue(s[|s| - 1])
  }

  /** Reads a decimal numeral back; fails on the empty string and on any non-digit. */
  function ParseNat(s: string): (r: Option<nat>)
    ensures r.Some? <==> |s| > 0 && forall k :: 0 <= k < |s| ==> IsDigit(s[k])
  {
    if |s| > 0 && forall k :: 0 <= k < |s| ==> IsDigit(s[k]) then Some(DigitsValue(s)) else None
  }

  /** The decimal rendering of a number reads back as that number. */
  lemma {:induction false} ParseNatToString(n: nat)
    ensures ParseNat(NatToString(n)) == Some(n)
  {
    var s := NatToString(n);
    if n < 10 {
      assert s[..|s| - 1] == "";
      assert DigitsValue(s) == DigitValue(s[0]) == n;
    } else {
      var prefix := NatToString(n / 10);
      ParseNatToString(n / 10);
      assert s[..|s| - 1] == prefix;
      assert DigitValue(DigitChar(n % 10)) == n % 10;
    }
  }

  /** A lower-case hexadecimal digit. */
  function HexDigit(d: nat): (c: char)
    requires d < 16
    ensures IsDigit(c) || 'a' <= c <= 'f'
  {
    if d < 10 then DigitChar(d) else ('a' as int + (d - 10)) as char
  }

  /** The shortest lower-case hexadecimal numeral of `n`. */
  function HexString(n: nat): (r: string)
    ensures |r| >= 1
  {
    if n < 16 then [HexDigit(n)] else HexString(n / 16) + [HexDigit(n % 16)]
  }

  /** `%0<width>x`: the hexadecimal numeral left-padded with zeros to `width`. */
  function HexPadded(n: nat, width: nat): (r: string)
    ensures |r| == if |HexString(n)| < width then width else |HexString(n)|
  {
    var h := HexString(n);
    if |h| < width then seq(width - |h|, _ => '0') + h else h
  }

  /** `%t`. */
  function BoolToString(b: bool): string {
    if b then "true" else "false"
  }
}
