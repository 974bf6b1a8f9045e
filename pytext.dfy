/**
 * The parts of Python's `str` behaviour the tool relies on: `strip`,
 * `rstrip`, `split`, `join`, `replace`, `lower`, `upper`, `title`,
 * `ljust`, `in`, `str(int)` and `int(str)`.
 *
 * Case mapping is modelled on ASCII letters only; `strip` uses the full
 * set of code points for which Python's `str.isspace` holds.
 */
module PyText {
  import opened Wrappers

  // ---------------------------------------------------------------- chars

  /** Python's `str.isspace` for a single character. */
  predicate IsSpace(c: char) {
    var n := c as int;
    (9 <= n <= 13) || (0x1C <= n <= 0x20) || n == 0x85 || n == 0xA0 || n == 0x1680
    || (0x2000 <= n <= 0x200A) || n == 0x2028 || n == 0x2029 || n == 0x202F
    || n == 0x205F || n == 0x3000
  }

  predicate IsDigit(c: char) { '0' <= c <= '9' }

  predicate IsUpperAscii(c: char) { 'A' <= c <= 'Z' }

  predicate IsLowerAscii(c: char) { 'a' <= c <= 'z' }

  /** A character with a case: only ASCII letters in this model. */
  predicate IsCased(c: char) { IsUpperAscii(c) || IsLowerAscii(c) }

  function LowerChar(c: char): (r: char)
    ensures IsCased(c) <==> IsCased(r)
    ensures !IsUpperAscii(r)
  {
    if IsUpperAscii(c) then (c as int + 32) as char else c
  }

  function UpperChar(c: char): (r: char)
    ensures IsCased(c) <==> IsCased(r)
    ensures !IsLowerAscii(r)
  {
    if IsLowerAscii(c) then (c as int - 32) as char else c
  }

  // -------------------------------------------------------- case mapping

  /** `s.lower()` */
  function Lower(s: string): (r: string)
    ensures |r| == |s|
    ensures forall i :: 0 <= i < |s| ==> r[i] == LowerChar(s[i])
  {
    seq(|s|, i requires 0 <= i < |s| => LowerChar(s[i]))
  }

  /** `s.upper()` */
  function Upper(s: string): (r: string)
    ensures |r| == |s|
    ensures forall i :: 0 <= i < |s| ==> r[i] == UpperChar(s[i])
  {
    seq(|s|, i requires 0 <= i < |s| => UpperChar(s[i]))
  }

  /**
   * `s.title()`: a cased character that follows a cased character is
   * lower-cased, every other one is upper-cased; the rest stay as they are.
   */
  function Title(s: string): (r: string)
    ensures |r| == |s|
    ensures forall i :: 0 <= i < |s| && !IsCased(s[i]) ==> r[i] == s[i]
    ensures forall i :: 0 < i < |s| && IsCased(s[i - 1]) ==> r[i] == LowerChar(s[i])
    ensures forall i :: 0 <= i < |s| && (i == 0 || !IsCased(s[i - 1])) ==> r[i] == UpperChar(s[i])
  {
    var r := seq(|s|, i requires 0 <= i < |s| => TitleChar(s, i));
    assert forall i :: 0 <= i < |s| ==> r[i] == TitleChar(s, i);
    r
  }

  /** The character `title()` puts at position `i`. */
  function TitleChar(s: string, i: nat): char
    requires i < |s|
  {
    if i > 0 && IsCased(s[i - 1]) then LowerChar(s[i]) else UpperChar(s[i])
  }

  /** `s.replace(a, b)` for single characters. */
  function Replace(s: string, a: char, b: char): (r: string)
    ensures |r| == |s|
    ensures forall i :: 0 <= i < |s| ==> r[i] == (if s[i] == a then b else s[i])
  {
    seq(|s|, i requires 0 <= i < |s| => if s[i] == a then b else s[i])
  }

  // ---------------------------------------------------- searching, slicing

  /** `sub in s` */
  predicate Contains(s: string, sub: string)
    decreases |s|
  {
    sub <= s || (|s| > 0 && Contains(s[1..], sub))
  }

  /** An occurrence of `sub` at position `i` makes `sub in s` hold. */
  lemma {:induction false} ContainsAt(s: string, sub: string, i: nat)
    requires i + |sub| <= |s| && s[i..i + |sub|] == sub
    ensures Contains(s, sub)
    decreases i
  {
    if i == 0 {
      assert s[..|sub|] == sub;
    } else {
      assert s[1..][i - 1..i - 1 + |sub|] == s[i..i + |sub|];
      ContainsAt(s[1..], sub, i - 1);
    }
  }

  /** `sub in s` holds only through an occurrence at some position. */
  lemma {:induction false} ContainsWitness(s: string, sub: string) returns (i: nat)
    requires Contains(s, sub)
    ensures i + |sub| <= |s| && s[i..i + |sub|] == sub
    decreases |s|
  {
    if sub <= s {
      i := 0;
    } else {
      var j := ContainsWitness(s[1..], sub);
      assert s[1..][j..j + |sub|] == s[j + 1..j + 1 + |sub|];
      i := j + 1;
    }
  }

  /** Every piece of a contained string is contained too. */
  lemma ContainsInner(s: string, sub: string, j: nat, k: nat)
    requires Contains(s, sub) && j <= k <= |sub|
    ensures Contains(s, sub[j..k])
  {
    var i := ContainsWitness(s, sub);
    assert s[i..i + |sub|] == sub;
    var u := s[i + j..i + k];
    assert forall m :: 0 <= m < |u| ==> u[m] == sub[j..k][m];
    assert u == sub[j..k];
    ContainsAt(s, sub[j..k], i + j);
  }

  /** `s.endswith(c)` for a single character. */
  predicate EndsWith(s: string, c: char) {
    |s| > 0 && s[|s| - 1] == c
  }

  /** `s.rstrip(c)` for a single character: drops every trailing `c`. */
  function RStripChar(s: string, c: char): (r: string)
    ensures r <= s
    ensures !EndsWith(r, c)
    ensures forall i :: |r| <= i < |s| ==> s[i] == c
  {
    if EndsWith(s, c) then RStripChar(s[..|s| - 1], c) else s
  }

  /** `s.split(c)[0]`: everything before the first `c`. */
  function BeforeFirst(s: string, c: char): (r: string)
    ensures r <= s
    ensures c !in r
    ensures |r| < |s| ==> s[|r|] == c
  {
    if |s| == 0 || s[0] == c then "" else [s[0]] + BeforeFirst(s[1..], c)
  }

  /** `s.split(c, 1)[1]` when `c in s`: everything after the first `c`. */
  function AfterFirst(s: string, c: char): (r: string)
    requires c in s
    ensures |s| == |BeforeFirst(s, c)| + 1 + |r|
    ensures s == BeforeFirst(s, c) + [c] + r
  {
    if s[0] == c then s[1..] else AfterFirst(s[1..], c)
  }

  /** `s.rsplit(c, 1)[1]` when `c in s`: everything after the last `c`. */
  function AfterLast(s: string, c: char): (r: string)
    requires c in s
    ensures c !in r
    ensures |r| < |s| && s == s[..|s| - |r| - 1] + [c] + r
  {
    if s[|s| - 1] == c then ""
    else
      assert c in s[..|s| - 1] by {
        var i :| 0 <= i < |s| && s[i] == c;
        assert s[..|s| - 1][i] == c;
      }
      var r := AfterLast(s[..|s| - 1], c) + [s[|s| - 1]];
      assert s == s[..|s| - 1] + [s[|s| - 1]];
      r
  }

  /** Splitting at the first `c` recovers the two sides of that `c`. */
  lemma {:induction false} SplitAtFirst(a: string, c: char, b: string)
    requires c !in a
    ensures c in a + [c] + b
    ensures BeforeFirst(a + [c] + b, c) == a && AfterFirst(a + [c] + b, c) == b
    decreases |a|
  {
    var s := a + [c] + b;
    assert s[|a|] == c;
    if |a| > 0 {
      assert s[1..] == a[1..] + [c] + b;
      SplitAtFirst(a[1..], c, b);
    }
  }

  /** Splitting at the last `c` recovers what follows that `c`. */
  lemma {:induction false} SplitAtLast(a: string, c: char, b: string)
    requires c !in b
    ensures c in a + [c] + b
    ensures AfterLast(a + [c] + b, c) == b
  {
    var s := a + [c] + b;
    assert s[|a|] == c;
    var r := AfterLast(s, c);
    assert s[|s| - |r| - 1] == c;
    if |r| < |b| {
      assert false;
    } else if |r| > |b| {
      assert false;
    }
    assert r == s[|s| - |r|..];
    assert b == s[|s| - |b|..];
  }

  /** `s.ljust(n, c)` */
  function PadRight(s: string, n: nat, c: char): (r: string)
    ensures s <= r
    ensures |r| == if |s| < n then n else |s|
    ensures forall i :: |s| <= i < |r| ==> r[i] == c
  {
    if |s| < n then s + seq(n - |s|, _ => c) else s
  }

  // ------------------------------------------------------------ stripping

  function LStrip(s: string): (r: string)
    ensures |r| <= |s| && r == s[|s| - |r|..]
    ensures r == "" || !IsSpace(r[0])
    ensures forall i :: 0 <= i < |s| - |r| ==> IsSpace(s[i])
  {
    if |s| > 0 && IsSpace(s[0]) then LStrip(s[1..]) else s
  }

  function RStrip(s: string): (r: string)
    ensures r <= s
    ensures r == "" || !IsSpace(r[|r| - 1])
    ensures forall i :: |r| <= i < |s| ==> IsSpace(s[i])
  {
    if |s| > 0 && IsSpace(s[|s| - 1]) then RStrip(s[..|s| - 1]) else s
  }

  /** `s.strip()`: the text between the leading and the trailing whitespace. */
  function Strip(s: string): (r: string)
    ensures r == "" || (!IsSpace(r[0]) && !IsSpace(r[|r| - 1]))
  {
    var l := LStrip(s);
    var r := RStrip(l);
    assert r != "" ==> r[0] == l[0];
    r
  }

  /** Text that neither starts nor ends with whitespace is its own `strip()`. */
  lemma StripUnpadded(s: string)
    requires s == "" || (!IsSpace(s[0]) && !IsSpace(s[|s| - 1]))
    ensures Strip(s) == s
  {
  }

  // ------------------------------------------------------ split and join

  /** `s.split(sep)`: never empty, and no piece holds `sep`. */
  function Split(s: string, sep: char): (r: seq<string>)
    ensures |r| >= 1
    ensures forall i :: 0 <= i < |r| ==> sep !in r[i]
    decreases |s|
  {
    if |s| == 0 then [""]
    else
      var rest := Split(s[1..], sep);
      if s[0] == sep then [""] + rest
      else [[s[0]] + rest[0]] + rest[1..]
  }

  /** A character absent from the text is absent from every piece of its split. */
  lemma {:induction false} SplitKeepsOut(s: string, sep: char, c: char)
    requires c !in s
    ensures forall i :: 0 <= i < |Split(s, sep)| ==> c !in Split(s, sep)[i]
    decreases |s|
  {
    if |s| > 0 {
      var rest := Split(s[1..], sep);
      assert c !in s[1..] by {
        assert forall i :: 0 <= i < |s| - 1 ==> s[1..][i] == s[i + 1];
      }
      SplitKeepsOut(s[1..], sep, c);
      if s[0] != sep {
        var r := Split(s, sep);
        assert r[0] == [s[0]] + rest[0];
        assert forall i :: 0 < i < |r| ==> r[i] == rest[i];
      }
    }
  }

  /** `sep.join(parts)` */
  function Join(parts: seq<string>, sep: string): string
  {
    if |parts| == 0 then ""
    else if |parts| == 1 then parts[0]
    else parts[0] + sep + Join(parts[1..], sep)
  }

  /** A join begins with its first part. */
  lemma JoinStartsWithFirst(parts: seq<string>, sep: string)
    requires |parts| >= 1
    ensures parts[0] <= Join(parts, sep)
  {
    if |parts| > 1 {
      assert Join(parts, sep) == parts[0] + (sep + Join(parts[1..], sep));
    }
  }

  /** Joining the pieces of a split restores the text. */
  lemma {:induction false} JoinSplit(s: string, sep: char)
    ensures Join(Split(s, sep), [sep]) == s
    decreases |s|
  {
    if |s| > 0 {
      var rest := Split(s[1..], sep);
      JoinSplit(s[1..], sep);
      if s[0] == sep {
        assert Split(s, sep) == [""] + rest;
        assert s == [sep] + s[1..];
      } else {
        var r := Split(s, sep);
        assert r == [[s[0]] + rest[0]] + rest[1..];
        if |rest| == 1 {
          assert Join(r, [sep]) == [s[0]] + rest[0];
        } else {
          assert r[1..] == rest[1..];
          assert Join(rest, [sep]) == rest[0] + [sep] + Join(rest[1..], [sep]);
          assert Join(r, [sep]) == [s[0]] + rest[0] + [sep] + Join(rest[1..], [sep]);
        }
        assert s == [s[0]] + s[1..];
      }
    }
  }

  /** A prefix without `sep` glues onto the first piece of the rest. */
  lemma {:induction false} SplitPrefix(p: string, s: string, sep: char)
    requires sep !in p
    ensures Split(p + s, sep) == [p + Split(s, sep)[0]] + Split(s, sep)[1..]
    decreases |p|
  {
    if |p| > 0 {
      assert (p + s)[1..] == p[1..] + s;
      SplitPrefix(p[1..], s, sep);
      assert [p[0]] + (p[1..] + Split(s, sep)[0]) == p + Split(s, sep)[0];
    } else {
      var r := Split(s, sep);
      assert p + s == s;
      assert r == [r[0]] + r[1..];
      assert p + r[0] == r[0];
    }
  }

  /** Splitting a join of separator-free pieces gives back the pieces. */
  lemma {:induction false} SplitJoin(parts: seq<string>, sep: char)
    requires |parts| >= 1
    requires forall i :: 0 <= i < |parts| ==> sep !in parts[i]
    ensures Split(Join(parts, [sep]), sep) == parts
    decreases |parts|
  {
    if |parts| == 1 {
      SplitPrefix(parts[0], "", sep);
      assert Split("", sep) == [""];
      assert parts[0] + "" == parts[0];
    } else {
      var tail := Join(parts[1..], [sep]);
      SplitJoin(parts[1..], sep);
      assert Join(parts, [sep]) == parts[0] + ([sep] + tail);
      SplitPrefix(parts[0], [sep] + tail, sep);
      assert ([sep] + tail)[1..] == tail;
      var r := Split([sep] + tail, sep);
      assert r == [""] + parts[1..];
      assert r[0] == "" && r[1..] == parts[1..];
      assert parts[0] + "" == parts[0];
      assert parts == [parts[0]] + parts[1..];
    }
  }

  /** Every piece stripped, with the pieces that strip to nothing dropped. */
  function StripNonEmpty(pieces: seq<string>): (r: seq<string>)
    ensures |r| <= |pieces|
    ensures forall i :: 0 <= i < |r| ==> r[i] != "" && Strip(r[i]) == r[i]
  {
    if |pieces| == 0 then []
    else
      var p := Strip(pieces[0]);
      StripUnpadded(p);
      var rest := StripNonEmpty(pieces[1..]);
      if p != "" then Cons(p, rest) else rest
  }

  /** `[p] + rest`, with its elements spelled out. */
  function Cons(p: string, rest: seq<string>): (r: seq<string>)
    ensures |r| == |rest| + 1 && r[0] == p
    ensures forall i :: 0 < i < |r| ==> r[i] == rest[i - 1]
  {
    [p] + rest
  }

  /** The stripped, non-blank fields of `s` between separators. */
  function StrippedFields(s: string, sep: char): (r: seq<string>)
    ensures forall i :: 0 <= i < |r| ==> r[i] != "" && Strip(r[i]) == r[i] && sep !in r[i]
  {
    var pieces := Split(s, sep);
    StripNonEmptyFrom(pieces, sep);
    StripNonEmpty(pieces)
  }

  lemma {:induction false} StripNonEmptyFrom(pieces: seq<string>, sep: char)
    requires forall i :: 0 <= i < |pieces| ==> sep !in pieces[i]
    ensures forall i :: 0 <= i < |StripNonEmpty(pieces)| ==> sep !in StripNonEmpty(pieces)[i]
  {
    if |pieces| > 0 {
      var tail := pieces[1..];
      assert forall i :: 0 <= i < |tail| ==> tail[i] == pieces[i + 1];
      StripNonEmptyFrom(tail, sep);
      StripSubstring(pieces[0], sep);
      var p := Strip(pieces[0]);
      var rest := StripNonEmpty(tail);
      var r := StripNonEmpty(pieces);
      if p != "" {
        assert r == Cons(p, rest);
        forall i | 0 < i < |r|
          ensures sep !in r[i]
        {
          assert r[i] == rest[i - 1];
        }
      } else {
        assert r == rest;
      }
    }
  }

  /** Stripping never introduces a character. */
  lemma {:induction false} StripSubstring(s: string, c: char)
    requires c !in s
    ensures c !in Strip(s)
  {
    var l := LStrip(s);
    var r := RStrip(l);
    assert r == Strip(s);
    forall i | 0 <= i < |r|
      ensures r[i] != c
    {
      assert r[i] == l[i] == s[|s| - |l| + i];
    }
  }

  /**
   * Splitting the join of non-empty, unpadded, separator-free fields and
   * dropping blanks gives back exactly those fields.
   */
  lemma StrippedFieldsOfJoin(fields: seq<string>, sep: char)
    requires |fields| >= 1
    requires forall i :: 0 <= i < |fields| ==> fields[i] != "" && Strip(fields[i]) == fields[i] && sep !in fields[i]
    ensures StrippedFields(Join(fields, [sep]), sep) == fields
  {
    SplitJoin(fields, sep);
    StripNonEmptyIdentity(fields);
  }

  lemma {:induction false} StripNonEmptyIdentity(pieces: seq<string>)
    requires forall i :: 0 <= i < |pieces| ==> pieces[i] != "" && Strip(pieces[i]) == pieces[i]
    ensures StripNonEmpty(pieces) == pieces
  {
    if |pieces| > 0 {
      StripNonEmptyIdentity(pieces[1..]);
      assert pieces == [pieces[0]] + pieces[1..];
    }
  }

  // ------------------------------------------------------------- numbers

  function DigitChar(d: nat): (c: char)
    requires d < 10
    ensures IsDigit(c)
  {
    ('0' as int + d) as char
  }

  function DigitValue(c: char): nat
    requires IsDigit(c)
  {
    c as int - '0' as int
  }

  /** Decimal value of a string of ASCII digits. */
  function DigitsValue(d: string): nat
    requires forall i :: 0 <= i < |d| ==> IsDigit(d[i])
  {
    if |d| == 0 then 0 else DigitsValue(d[..|d| - 1]) * 10 + DigitValue(d[|d| - 1])
  }

  /** `str(n)` for a natural number: its decimal digits. */
  function NatToStr(n: nat): (r: string)
    ensures |r| >= 1
    ensures forall i :: 0 <= i < |r| ==> IsDigit(r[i])
  {
    if n < 10 then [DigitChar(n)] else NatToStr(n / 10) + [DigitChar(n % 10)]
  }

  /** `str(i)` for an integer. */
  function IntToStr(i: int): (r: string)
    ensures |r| >= 1 && IsDigit(r[|r| - 1])
    ensures i < 0 <==> r[0] == '-'
  {
    if i < 0 then "-" + NatToStr(-i) else NatToStr(i)
  }

  lemma {:induction false} NatToStrValue(n: nat)
    ensures DigitsValue(NatToStr(n)) == n
  {
    if n >= 10 {
      NatToStrValue(n / 10);
      var r := NatToStr(n);
      assert r[..|r| - 1] == NatToStr(n / 10);
    }
  }

  /**
   * Digits as Python's `int()` accepts them: ASCII digits, each underscore
   * standing between two digits.
   */
  predicate WellFormedDigits(d: string) {
    && |d| > 0
    && (forall i :: 0 <= i < |d| ==> IsDigit(d[i]) || d[i] == '_')
    && (forall i :: 0 <= i < |d| && d[i] == '_' ==> 0 < i < |d| - 1 && IsDigit(d[i - 1]) && IsDigit(d[i + 1]))
  }

  function RemoveUnderscores(d: string): (r: string)
    ensures |r| <= |d|
    ensures (forall i :: 0 <= i < |d| ==> IsDigit(d[i]) || d[i] == '_') ==>
              forall i :: 0 <= i < |r| ==> IsDigit(r[i])
    ensures (forall i :: 0 <= i < |d| ==> d[i] != '_') ==> r == d
  {
    if |d| == 0 then ""
    else (if d[0] == '_' then "" else [d[0]]) + RemoveUnderscores(d[1..])
  }

  function ParseUnsigned(d: string): (r: Option<nat>)
  {
    if WellFormedDigits(d) then
      Some(DigitsValue(RemoveUnderscores(d)))
    else None
  }

  /**
   * `int(s)`: surrounding whitespace, an optional sign, then digits;
   * None where Python raises `ValueError`.
   */
  function ParseInt(s: string): (r: Option<int>)
  {
    var t := Strip(s);
    if |t| > 0 && (t[0] == '+' || t[0] == '-') then
      match ParseUnsigned(t[1..])
      case None => None
      case Some(n) => var v: int := n; if t[0] == '-' then Some(-v) else Some(v)
    else
      match ParseUnsigned(t)
      case None => None
      case Some(n) => Some(n)
  }

  /** `int(str(i)) == i`: parsing inverts rendering. */
  lemma ParseIntOfIntToStr(i: int)
    ensures ParseInt(IntToStr(i)) == Some(i)
  {
    var n: nat := if i < 0 then -i else i;
    var d := NatToStr(n);
    NatToStrValue(n);
    if i < 0 {
      ParseIntOfNegative(d);
    } else {
      ParseIntOfDigits(d);
    }
  }

  /** `int("-" + d)` of plain ASCII digits is minus their value. */
  lemma ParseIntOfNegative(d: string)
    requires |d| > 0 && forall i :: 0 <= i < |d| ==> IsDigit(d[i])
    ensures ParseInt("-" + d) == Some(-(DigitsValue(d) as int))
  {
    var s := "-" + d;
    assert s[0] == '-' && IsDigit(s[|s| - 1]);
    StripUnpadded(s);
    ParseIntOfMinus(s, d);
  }

  /** Once `strip()` leaves "-" + d alone, `int` reads the sign and the digits. */
  lemma ParseIntOfMinus(s: string, d: string)
    requires |d| > 0 && forall i :: 0 <= i < |d| ==> IsDigit(d[i])
    requires s == "-" + d && Strip(s) == s
    ensures ParseInt(s) == Some(-(DigitsValue(d) as int))
  {
    assert s[1..] == d;
    ParseUnsignedOfDigits(d);
  }

  /** `int(d)` of plain ASCII digits, leading zeros included, is their decimal value. */
  lemma ParseIntOfDigits(d: string)
    requires |d| > 0 && forall i :: 0 <= i < |d| ==> IsDigit(d[i])
    ensures ParseInt(d) == Some(DigitsValue(d))
  {
    assert IsDigit(d[0]) && IsDigit(d[|d| - 1]);
    StripUnpadded(d);
    var t := Strip(d);
    assert t == d;
    assert !(t[0] == '+' || t[0] == '-');
    ParseUnsignedOfDigits(t);
  }

  lemma ParseUnsignedOfDigits(d: string)
    requires |d| > 0 && forall i :: 0 <= i < |d| ==> IsDigit(d[i])
    ensures ParseUnsigned(d) == Some(DigitsValue(d))
  {
    assert forall i :: 0 <= i < |d| ==> d[i] != '_';
    assert WellFormedDigits(d);
    assert RemoveUnderscores(d) == d;
  }
}
