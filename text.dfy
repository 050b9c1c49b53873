/** The string primitives the service relies on: `Trim`, `ToLower`,
    `Split` on a one-character separator and `int.TryParse`, each given a
    definition and the properties callers depend on. */
module Text {
  import opened Wrappers

  // ---------------------------------------------------------------- Trim

  /** The white-space characters removed by `Trim` and skipped by the
      integer parser: space, tab, line feed, vertical tab, form feed and
      carriage return. */
  predicate IsWhite(c: char) {
    c == ' ' || c == '\t' || c == '\n' || c == '\r' || c as int == 11 || c as int == 12
  }

  predicate AllWhite(s: string) {
    forall i :: 0 <= i < |s| ==> IsWhite(s[i])
  }

  /** True when `s` neither starts nor ends with white space. */
  predicate IsTrimmed(s: string) {
    s == [] || (!IsWhite(s[0]) && !IsWhite(s[|s| - 1]))
  }

  /** The number of white-space characters at the start of `s`. */
  function LeadingWhite(s: string): (n: nat)
    ensures n <= |s| && AllWhite(s[..n])
    ensures n < |s| ==> !IsWhite(s[n])
  {
    if s != [] && IsWhite(s[0]) then
      var n := 1 + LeadingWhite(s[1..]);
      assert s[..n] == [s[0]] + s[1..][..n - 1];
      n
    else 0
  }

  /** The number of white-space characters at the end of `s`. */
  function TrailingWhite(s: string): (n: nat)
    ensures n <= |s| && AllWhite(s[|s| - n..])
    ensures n < |s| ==> !IsWhite(s[|s| - n - 1])
  {
    if s != [] && IsWhite(s[|s| - 1]) then
      var t := s[..|s| - 1];
      var n := 1 + TrailingWhite(t);
      assert s[|s| - n..] == t[|t| - (n - 1)..] + [s[|s| - 1]];
      AllWhiteSnoc(t[|t| - (n - 1)..], s[|s| - 1]);
      n
    else 0
  }

  lemma AllWhiteSnoc(t: string, c: char)
    requires AllWhite(t) && IsWhite(c)
    ensures AllWhite(t + [c])
  {
  }

  /** `s` without its leading and trailing white space: the result is a
      factor of `s` that is surrounded in `s` by white space only and does
      not itself start or end with white space. */
  function Trim(s: string): (r: string)
    ensures |r| <= |s| && IsTrimmed(r)
    ensures exists i :: 0 <= i <= |s| - |r| && AllWhite(s[..i]) && r == s[i..i + |r|] && AllWhite(s[i + |r|..])
  {
    var a := LeadingWhite(s);
    var t := s[a..];
    var b := TrailingWhite(t);
    TrimFactor(s, a, b);
    t[..|t| - b]
  }

  /** Cutting `a` white-space characters from the front and `b` from the
      back leaves a factor of `s` surrounded by white space. */
  lemma TrimFactor(s: string, a: nat, b: nat)
    requires a <= |s| && b <= |s| - a
    requires AllWhite(s[..a]) && AllWhite(s[a..][|s| - a - b..])
    requires a < |s| ==> !IsWhite(s[a])
    requires b < |s| - a ==> !IsWhite(s[a..][|s| - a - b - 1])
    ensures var r := s[a..][..|s| - a - b];
            && IsTrimmed(r)
            && 0 <= a <= |s| - |r| && AllWhite(s[..a]) && r == s[a..a + |r|] && AllWhite(s[a + |r|..])
  {
    var t := s[a..];
    var r := t[..|t| - b];
    assert r == s[a..a + |r|] && s[a + |r|..] == t[|t| - b..];
  }

  /** Trimming leaves an already trimmed string as it is. */
  lemma TrimTrimmed(s: string)
    requires IsTrimmed(s)
    ensures Trim(s) == s
  {
    assert LeadingWhite(s) == 0;
    assert TrailingWhite(s) == 0;
  }

  /** `Trim` is idempotent. */
  lemma TrimIdempotent(s: string)
    ensures Trim(Trim(s)) == Trim(s)
  {
    TrimTrimmed(Trim(s));
  }

  /** Every character of `Trim(s)` is a character of `s`. */
  lemma TrimKeepsChars(s: string, c: char)
    requires c in Trim(s)
    ensures c in s
  {
    var t := s[LeadingWhite(s)..];
    assert Trim(s) == t[..|t| - TrailingWhite(t)];
    InPrefix(t, |t| - TrailingWhite(t), c);
    InSuffix(s, LeadingWhite(s), c);
  }

  lemma InPrefix(s: string, n: nat, c: char)
    requires n <= |s| && c in s[..n]
    ensures c in s
  {
    var k :| 0 <= k < n && s[..n][k] == c;
    assert s[k] == c;
  }

  lemma InSuffix(s: string, n: nat, c: char)
    requires n <= |s| && c in s[n..]
    ensures c in s
  {
    var k :| 0 <= k < |s| - n && s[n..][k] == c;
    assert s[n + k] == c;
  }

  // ------------------------------------------------------------- ToLower

  predicate IsUpper(c: char) { 'A' <= c <= 'Z' }

  /** ASCII lower-casing of one character. */
  function LowerChar(c: char): char {
    if IsUpper(c) then (c as int + 32) as char else c
  }

  /** True when `s` holds no upper-case letter. */
  predicate IsLower(s: string) {
    forall i :: 0 <= i < |s| ==> !IsUpper(s[i])
  }

  /** `s` with every upper-case letter replaced by its lower-case form and
      every other character kept in place. */
  function ToLower(s: string): (r: string)
    ensures |r| == |s| && IsLower(r)
    ensures forall i :: 0 <= i < |s| ==> r[i] == s[i] || (IsUpper(s[i]) && r[i] as int == s[i] as int + 32)
  {
    if s == [] then [] else [LowerChar(s[0])] + ToLower(s[1..])
  }

  /** Lower-casing changes nothing in a string that has no upper-case letter. */
  lemma {:induction false} ToLowerOfLower(s: string)
    requires IsLower(s)
    ensures ToLower(s) == s
  {
    if s != [] {
      ToLowerOfLower(s[1..]);
    }
  }

  /** `ToLower` is idempotent. */
  lemma ToLowerIdempotent(s: string)
    ensures ToLower(ToLower(s)) == ToLower(s)
  {
    ToLowerOfLower(ToLower(s));
  }

  /** Lower-casing neither removes nor introduces a character that is not
      a letter. */
  lemma ToLowerKeepsOther(s: string, c: char)
    requires !IsUpper(c) && !('a' <= c <= 'z')
    ensures c in ToLower(s) <==> c in s
  {
    var r := ToLower(s);
    if c in r {
      var k :| 0 <= k < |r| && r[k] == c;
      assert s[k] == c;
    }
    if c in s {
      var k :| 0 <= k < |s| && s[k] == c;
      assert r[k] == c;
    }
  }

  /** The canonical form of one field: `item.Trim().ToLower()`. */
  function Normalize(s: string): (r: string)
    ensures IsLower(r) && IsTrimmed(r)
  {
    var t := Trim(s);
    var r := ToLower(t);
    assert r == [] || (r[0] == LowerChar(t[0]) && r[|r| - 1] == LowerChar(t[|t| - 1]));
    r
  }

  /** Normalizing twice is normalizing once. */
  lemma NormalizeIdempotent(s: string)
    ensures Normalize(Normalize(s)) == Normalize(s)
  {
    var n := Normalize(s);
    TrimTrimmed(n);
    ToLowerOfLower(n);
  }

  /** A lower-case, trimmed string is its own normal form. */
  lemma NormalizeNormal(s: string)
    requires IsLower(s) && IsTrimmed(s)
    ensures Normalize(s) == s
  {
    TrimTrimmed(s);
    ToLowerOfLower(s);
  }

  /** A character that is neither white space nor a letter survives
      normalization only if it was there before. */
  lemma NormalizeKeepsChar(s: string, c: char)
    requires !IsWhite(c) && !IsUpper(c) && !('a' <= c <= 'z')
    requires c !in s
    ensures c !in Normalize(s)
  {
    var t := Trim(s);
    if c in t {
      TrimKeepsChars(s, c);
    }
    ToLowerKeepsOther(t, c);
  }

  /** `items.Select(item => item.Trim().ToLower())`. */
  function NormalizeAll(items: seq<string>): (r: seq<string>)
    ensures |r| == |items|
    ensures forall i :: 0 <= i < |items| ==> r[i] == Normalize(items[i])
  {
    if items == [] then [] else [Normalize(items[0])] + NormalizeAll(items[1..])
  }

  // --------------------------------------------------------------- Split

  /** `s.Split(sep)`: the maximal pieces of `s` between occurrences of
      `sep`, empty pieces included; never an empty list. */
  function Split(s: string, sep: char): (parts: seq<string>)
    ensures |parts| >= 1
    ensures forall i :: 0 <= i < |parts| ==> sep !in parts[i]
    decreases |s|
  {
    if s == [] then [[]]
    else
      var rest := Split(s[1..], sep);
      if s[0] == sep then [[]] + rest
      else [[s[0]] + rest[0]] + rest[1..]
  }

  /** The inverse of `Split`: the pieces put back together with `sep`. */
  function Join(parts: seq<string>, sep: char): string
    requires |parts| >= 1
  {
    if |parts| == 1 then parts[0] else parts[0] + [sep] + Join(parts[1..], sep)
  }

  /** Splitting loses nothing: joining the pieces gives the string back. */
  lemma {:induction false} JoinSplit(s: string, sep: char)
    ensures Join(Split(s, sep), sep) == s
    decreases |s|
  {
    if s != [] {
      var rest := Split(s[1..], sep);
      JoinSplit(s[1..], sep);
      if s[0] == sep {
        assert Split(s, sep)[1..] == rest;
      } else {
        JoinExtendFirst(s[0], rest, sep);
        assert [s[0]] + s[1..] == s;
      }
    }
  }

  /** Putting a character in front of the first piece puts it in front of
      the joined string. */
  lemma JoinExtendFirst(c: char, rest: seq<string>, sep: char)
    requires |rest| >= 1
    ensures Join([[c] + rest[0]] + rest[1..], sep) == [c] + Join(rest, sep)
  {
    var parts := [[c] + rest[0]] + rest[1..];
    assert parts[1..] == rest[1..];
  }

  /** A piece free of the separator splits into itself. */
  lemma {:induction false} SplitNoSeparator(p: string, sep: char)
    requires sep !in p
    ensures Split(p, sep) == [p]
    decreases |p|
  {
    if p != [] {
      SplitNoSeparator(p[1..], sep);
      assert [p[0]] + p[1..] == p;
    }
  }

  /** A leading piece free of the separator, followed by the separator,
      comes off as the first piece. */
  lemma {:induction false} SplitLeadingPiece(p: string, sep: char, rest: string)
    requires sep !in p
    ensures Split(p + [sep] + rest, sep) == [p] + Split(rest, sep)
    decreases |p|
  {
    var s := p + [sep] + rest;
    if p == [] {
      assert s == [sep] + rest;
      assert s[1..] == rest;
    } else {
      assert s[1..] == p[1..] + [sep] + rest;
      SplitLeadingPiece(p[1..], sep, rest);
      assert [p[0]] + p[1..] == p;
    }
  }

  /** The other half of the round trip: joining pieces that do not contain
      the separator and splitting again gives the pieces back. */
  lemma {:induction false} SplitJoin(parts: seq<string>, sep: char)
    requires |parts| >= 1
    requires forall i :: 0 <= i < |parts| ==> sep !in parts[i]
    ensures Split(Join(parts, sep), sep) == parts
    decreases |parts|
  {
    if |parts| == 1 {
      SplitNoSeparator(parts[0], sep);
    } else {
      SplitJoin(parts[1..], sep);
      SplitLeadingPiece(parts[0], sep, Join(parts[1..], sep));
      assert [parts[0]] + parts[1..] == parts;
    }
  }

  /** A character absent from `s` is absent from every piece of it. */
  lemma {:induction false} SplitExcludes(s: string, sep: char, c: char)
    requires c !in s
    ensures forall i :: 0 <= i < |Split(s, sep)| ==> c !in Split(s, sep)[i]
    decreases |s|
  {
    if s != [] {
      SplitExcludes(s[1..], sep, c);
      assert c !in s[1..];
    }
  }

  /** A character other than the separator occurs in the joined string
      only if it occurs in one of the pieces. */
  lemma {:induction false} JoinExcludes(parts: seq<string>, sep: char, c: char)
    requires |parts| >= 1 && c != sep
    requires forall i :: 0 <= i < |parts| ==> c !in parts[i]
    ensures c !in Join(parts, sep)
    decreases |parts|
  {
    if |parts| > 1 {
      JoinExcludes(parts[1..], sep, c);
    }
  }

  /** Joining lower-case pieces with a separator that is not an upper-case
      letter gives a lower-case string. */
  lemma {:induction false} JoinLower(parts: seq<string>, sep: char)
    requires |parts| >= 1 && !IsUpper(sep)
    requires forall i :: 0 <= i < |parts| ==> IsLower(parts[i])
    ensures IsLower(Join(parts, sep))
    decreases |parts|
  {
    if |parts| > 1 {
      JoinLower(parts[1..], sep);
    }
  }

  /** Joining trimmed pieces, empty ones included, with a separator that is
      not white space gives a trimmed string. */
  lemma {:induction false} JoinTrimmed(parts: seq<string>, sep: char)
    requires |parts| >= 1 && !IsWhite(sep)
    requires forall i :: 0 <= i < |parts| ==> IsTrimmed(parts[i])
    ensures IsTrimmed(Join(parts, sep))
    decreases |parts|
  {
    if |parts| > 1 {
      JoinTrimmed(parts[1..], sep);
      var rest := Join(parts[1..], sep);
      var s := parts[0] + [sep] + rest;
      assert s[0] == (if parts[0] == [] then sep else parts[0][0]);
      assert s[|s| - 1] == (if rest == [] then sep else rest[|rest| - 1]);
    }
  }

  /** `Split` gives one piece more than there are separators in `s`; so a
      line splits into exactly five fields iff it holds exactly four commas. */
  lemma {:induction false} SplitCount(s: string, sep: char)
    ensures |Split(s, sep)| == multiset(s)[sep] + 1
    decreases |s|
  {
    if s != [] {
      SplitCount(s[1..], sep);
      assert s == [s[0]] + s[1..];
      assert multiset(s) == multiset{s[0]} + multiset(s[1..]);
    }
  }

  // ------------------------------------------------------- int.TryParse

  const Int32Min: int := -0x8000_0000
  const Int32Max: int := 0x7FFF_FFFF

  predicate InInt32(n: int) { Int32Min <= n <= Int32Max }

  predicate IsDigit(c: char) { '0' <= c <= '9' }

  predicate AllDigits(s: string) {
    forall i :: 0 <= i < |s| ==> IsDigit(s[i])
  }

  /** The value of a string of decimal digits, most significant first. */
  function DigitsValue(s: string): nat
    requires AllDigits(s)
  {
    if s == [] then 0
    else DigitsValue(s[..|s| - 1]) * 10 + (s[|s| - 1] as int - '0' as int)
  }

  /** `int.TryParse(s, out v)`: optional surrounding white space, an
      optional sign, then one or more decimal digits whose value must fit in
      a 32-bit signed integer. */
  function ParseInt32(s: string): (r: Option<int>)
    ensures r.Some? ==> InInt32(r.value)
  {
    var t := Trim(s);
    var signed := t != [] && (t[0] == '-' || t[0] == '+');
    var digits := if signed then t[1..] else t;
    if digits == [] || !AllDigits(digits) then None
    else
      var magnitude: int := DigitsValue(digits);
      var v := if signed && t[0] == '-' then -magnitude else magnitude;
      if InInt32(v) then Some(v) else None
  }

  /** The decimal digits of a natural number, without leading zeros. */
  function ShowNat(n: nat): (s: string)
    ensures s != [] && AllDigits(s)
  {
    if n < 10 then [('0' as int + n) as char]
    else ShowNat(n / 10) + [('0' as int + n % 10) as char]
  }

  /** The decimal form of an integer, with a leading `-` when negative. */
  function ShowInt(n: int): (s: string)
    ensures s != []
  {
    if n < 0 then "-" + ShowNat(-n) else ShowNat(n)
  }

  /** The decimal form of an integer is a lower-case, trimmed string made
      of digits and at most a leading minus sign. */
  lemma ShowIntShape(n: int)
    ensures IsLower(ShowInt(n)) && IsTrimmed(ShowInt(n))
    ensures forall i :: 0 <= i < |ShowInt(n)| ==> IsDigit(ShowInt(n)[i]) || (i == 0 && ShowInt(n)[i] == '-')
  {
    var s := ShowInt(n);
    var d := ShowNat(if n < 0 then -n else n);
    assert IsDigit(d[|d| - 1]) && s[|s| - 1] == d[|d| - 1];
    if n < 0 {
      assert forall i :: 1 <= i < |s| ==> s[i] == d[i - 1];
    }
  }

  lemma {:induction false} ShowNatValue(n: nat)
    ensures DigitsValue(ShowNat(n)) == n
  {
    if n >= 10 {
      ShowNatValue(n / 10);
      var s := ShowNat(n);
      assert s[..|s| - 1] == ShowNat(n / 10);
    }
  }

  /** The parser reads back every 32-bit integer written in decimal. */
  lemma ParseShowInt(n: int)
    requires InInt32(n)
    ensures ParseInt32(ShowInt(n)) == Some(n)
  {
    var s := ShowInt(n);
    var d := ShowNat(if n < 0 then -n else n);
    ShowIntShape(n);
    TrimTrimmed(s);
    ShowNatValue(if n < 0 then -n else n);
    if n < 0 {
      assert s[1..] == d;
    }
  }
}
