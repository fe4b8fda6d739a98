/**
 * The JavaScript string operations the sync action relies on: `startsWith`, `split` on a
 * one-character separator, `join`, `filter(e => e)` over optional parts, `String(n)` for
 * integers, and `parseInt` with no radix.
 */
module Strings {
  import opened Wrappers

  /** `s.startsWith(p)`. */
  predicate StartsWith(s: string, p: string) {
    p <= s
  }

  /** An optional string that JavaScript treats as true: present and not empty. */
  predicate NonEmpty(o: Option<string>) {
    o.Some? && o.value != ""
  }

  /** The text of a truthy optional string, and "" otherwise (`o || ""`). */
  function TextOr(o: Option<string>): (r: string)
    ensures NonEmpty(o) ==> r == o.value
    ensures !NonEmpty(o) ==> r == ""
  {
    if NonEmpty(o) then o.value else ""
  }

  /** `parts.join(sep)`. */
  function Join(parts: seq<string>, sep: string): string
  {
    if |parts| == 0 then ""
    else if |parts| == 1 then parts[0]
    else parts[0] + sep + Join(parts[1..], sep)
  }

  /** `s.split(sep)` for a one-character separator: the maximal separator-free pieces. */
  function Split(s: string, sep: char): (parts: seq<string>)
    ensures |parts| >= 1
    ensures forall i :: 0 <= i < |parts| ==> sep !in parts[i]
    decreases |s|
  {
    if |s| == 0 then [""]
    else
      var rest := Split(s[1..], sep);
      if s[0] == sep then [""] + rest
      else [[s[0]] + rest[0]] + rest[1..]
  }

  /** Joining the pieces of a split with the separator gives back the string. */
  lemma {:induction false} JoinSplit(s: string, sep: char)
    ensures Join(Split(s, sep), [sep]) == s
    decreases |s|
  {
    if |s| > 0 {
      var rest := Split(s[1..], sep);
      JoinSplit(s[1..], sep);
      if s[0] == sep {
        assert Split(s, sep) == [""] + rest;
        assert ([""] + rest)[1..] == rest;
      } else {
        var parts := [[s[0]] + rest[0]] + rest[1..];
        assert Split(s, sep) == parts;
        if |rest| == 1 {
          assert Join(parts, [sep]) == [s[0]] + rest[0];
        } else {
          assert parts[1..] == rest[1..];
          assert Join(rest, [sep]) == rest[0] + [sep] + Join(rest[1..], [sep]);
        }
      }
    }
  }

  /** Splitting a join of separator-free pieces gives back the pieces. */
  lemma {:induction false} SplitJoin(parts: seq<string>, sep: char)
    requires |parts| >= 1
    requires forall i :: 0 <= i < |parts| ==> sep !in parts[i]
    ensures Split(Join(parts, [sep]), sep) == parts
    decreases |Join(parts, [sep])|, |parts[0]|
  {
    var head := parts[0];
    if |head| == 0 {
      if |parts| > 1 {
        var tail := parts[1..];
        assert Join(parts, [sep]) == [sep] + Join(tail, [sep]);
        SplitJoin(tail, sep);
        assert ([sep] + Join(tail, [sep]))[1..] == Join(tail, [sep]);
        assert parts == [""] + tail;
      }
    } else {
      var smaller := [head[1..]] + parts[1..];
      assert forall i :: 0 <= i < |smaller| ==> sep !in smaller[i] by {
        forall i | 0 <= i < |smaller|
          ensures sep !in smaller[i]
        {
          if i == 0 {
            assert forall c :: c in head[1..] ==> c in head;
          } else {
            assert smaller[i] == parts[i];
          }
        }
      }
      JoinCons(head[0], head[1..], parts[1..], [sep]);
      assert [head[0]] + head[1..] == head;
      assert parts == [head] + parts[1..];
      var j := Join(smaller, [sep]);
      assert Join(parts, [sep]) == [head[0]] + j;
      SplitJoin(smaller, sep);
      assert head[0] != sep by { assert head[0] in parts[0]; }
      assert ([head[0]] + j)[1..] == j;
      assert smaller[1..] == parts[1..];
    }
  }

  /** Moving the first character of the first piece out of a join. */
  lemma JoinCons(c: char, t: string, rest: seq<string>, sep: string)
    ensures Join([[c] + t] + rest, sep) == [c] + Join([t] + rest, sep)
  {
    if |rest| > 0 {
      assert ([[c] + t] + rest)[1..] == rest;
      assert ([t] + rest)[1..] == rest;
    }
  }

  /** `parts.filter(e => e)`: the present, non-empty parts, in order. */
  function Compact(parts: seq<Option<string>>): (r: seq<string>)
    ensures |r| <= |parts|
    ensures forall i :: 0 <= i < |r| ==> r[i] != ""
    decreases |parts|
  {
    if |parts| == 0 then []
    else if NonEmpty(parts[0]) then [parts[0].value] + Compact(parts[1..])
    else Compact(parts[1..])
  }

  /** Exactly the present, non-empty parts survive the filter. */
  lemma {:induction false} CompactKeeps(parts: seq<Option<string>>)
    ensures forall p :: p in Compact(parts) <==> p != "" && Some(p) in parts
    decreases |parts|
  {
    if |parts| > 0 {
      CompactKeeps(parts[1..]);
      assert parts == [parts[0]] + parts[1..];
    }
  }

  /** Filtering keeps order: the kept parts of a concatenation are those of each side, in turn. */
  lemma {:induction false} CompactAppend(a: seq<Option<string>>, b: seq<Option<string>>)
    ensures Compact(a + b) == Compact(a) + Compact(b)
    decreases |a|
  {
    if |a| == 0 {
      assert a + b == b;
    } else {
      CompactAppend(a[1..], b);
      assert (a + b)[1..] == a[1..] + b;
      assert (a + b)[0] == a[0];
      var head := if NonEmpty(a[0]) then [a[0].value] else [];
      var restA, restB := Compact(a[1..]), Compact(b);
      assert Compact(a) == head + restA;
      assert Compact(a + b) == head + (restA + restB);
      assert head + (restA + restB) == (head + restA) + restB;
    }
  }

  /** A single part survives exactly when it is present and non-empty. */
  lemma CompactOne(x: Option<string>)
    ensures Compact([x]) == if NonEmpty(x) then [x.value] else []
  {
    assert [x][1..] == [];
  }

  /**
   * Filtering then joining with a separator: the first kept part comes first, followed by
   * one separator and the rest only when something else is kept.
   */
  lemma CompactJoinCons(x: Option<string>, rest: seq<Option<string>>, sep: string)
    ensures Compact([x] + rest) == (if NonEmpty(x) then [x.value] else []) + Compact(rest)
    ensures Join(Compact([x] + rest), sep) ==
      if !NonEmpty(x) then Join(Compact(rest), sep)
      else if Compact(rest) == [] then x.value
      else x.value + sep + Join(Compact(rest), sep)
  {
    assert ([x] + rest)[1..] == rest;
  }

  /** Two texts separated by one space, leaving out an empty side. */
  function SpaceJoin(a: string, b: string): string {
    if a == "" then b else if b == "" then a else a + " " + b
  }

  /** Filtering two optional parts and joining them with a space. */
  lemma CompactJoinPair(x: Option<string>, y: Option<string>)
    ensures Join(Compact([x, y]), " ") == SpaceJoin(TextOr(x), TextOr(y))
    ensures Compact([x, y]) == [] <==> SpaceJoin(TextOr(x), TextOr(y)) == ""
  {
    CompactJoinCons(x, [y], " ");
    CompactJoinCons(y, [], " ");
    assert [x] + [y] == [x, y];
    assert [y] + [] == [y];
  }

  /** Filtering three optional parts and joining them with a space. */
  lemma CompactJoinTriple(x: Option<string>, y: Option<string>, z: Option<string>)
    ensures Join(Compact([x, y, z]), " ") == SpaceJoin(TextOr(x), SpaceJoin(TextOr(y), TextOr(z)))
    ensures Compact([x, y, z]) == [] <==> SpaceJoin(TextOr(x), SpaceJoin(TextOr(y), TextOr(z))) == ""
  {
    CompactJoinCons(x, [y, z], " ");
    CompactJoinPair(y, z);
    assert [x] + [y, z] == [x, y, z];
  }

  /** No part is kept exactly when every part is absent or empty. */
  lemma CompactEmpty(parts: seq<Option<string>>)
    ensures Compact(parts) == [] <==> forall i :: 0 <= i < |parts| ==> !NonEmpty(parts[i])
    decreases |parts|
  {
    if |parts| > 0 {
      CompactEmpty(parts[1..]);
      assert forall i :: 1 <= i < |parts| ==> parts[i] == parts[1..][i - 1];
    }
  }

  /** Joining non-empty parts gives a non-empty string. */
  lemma JoinNonEmpty(parts: seq<string>, sep: string)
    requires |parts| > 0 && parts[0] != ""
    ensures Join(parts, sep) != ""
  {
  }

  // ---- Decimal text -------------------------------------------------------------------

  predicate IsDigit(c: char) {
    '0' <= c <= '9'
  }

  predicate AllDigits(s: string) {
    forall i :: 0 <= i < |s| ==> IsDigit(s[i])
  }

  function DigitChar(d: nat): (c: char)
    requires d < 10
    ensures IsDigit(c) && c as int - '0' as int == d
  {
    (d + '0' as int) as char
  }

  /** `String(n)` for a natural number: decimal digits without leading zeros. */
  function NatToString(n: nat): (r: string)
    ensures |r| >= 1 && AllDigits(r)
    ensures r[0] == '0' <==> n == 0
    ensures r[0] == '0' ==> |r| == 1
    decreases n
  {
    if n < 10 then [DigitChar(n)] else NatToString(n / 10) + [DigitChar(n % 10)]
  }

  /** The number a string of decimal digits denotes. */
  function DecimalValue(s: string): nat
    requires AllDigits(s)
    decreases |s|
  {
    if |s| == 0 then 0 else 10 * DecimalValue(s[..|s| - 1]) + (s[|s| - 1] as int - '0' as int)
  }

  /** Reading back the decimal text of a number gives the number. */
  lemma {:induction false} DecimalValueOfNatToString(n: nat)
    ensures DecimalValue(NatToString(n)) == n
    decreases n
  {
    var s := NatToString(n);
    if n >= 10 {
      DecimalValueOfNatToString(n / 10);
      assert s[..|s| - 1] == NatToString(n / 10);
    } else {
      assert s[..|s| - 1] == [];
    }
  }

  /** `String(i)` for an integer. */
  function IntToString(i: int): (r: string)
    ensures |r| >= 1
  {
    if i < 0 then "-" + NatToString(-i) else NatToString(i)
  }

  // ---- parseInt ------------------------------------------------------------------------

  /** The white space and line terminators that `parseInt` skips before the number. */
  predicate IsJsWhitespace(c: char) {
    || c == '\t' || c == '\n' || c == '\r' || c == ' ' || c == '\U{000B}' || c == '\U{000C}'
    || c == '\U{00A0}' || c == '\U{1680}' || c == '\U{2028}' || c == '\U{2029}' || c == '\U{202F}'
    || c == '\U{205F}' || c == '\U{3000}' || c == '\U{FEFF}'
    || '\U{2000}' <= c <= '\U{200A}'
  }

  function TrimStart(s: string): (r: string)
    ensures |r| <= |s| && r == s[|s| - |r|..]
    ensures |r| == 0 || !IsJsWhitespace(r[0])
    decreases |s|
  {
    if |s| > 0 && IsJsWhitespace(s[0]) then TrimStart(s[1..]) else s
  }

  /** The longest prefix of `s` made of decimal digits. */
  function DigitRun(s: string): (r: string)
    ensures AllDigits(r) && r <= s
    ensures |r| == |s| || !IsDigit(s[|r|])
    decreases |s|
  {
    if |s| > 0 && IsDigit(s[0]) then [s[0]] + DigitRun(s[1..]) else ""
  }

  predicate IsHexDigit(c: char) {
    IsDigit(c) || 'a' <= c <= 'f' || 'A' <= c <= 'F'
  }

  predicate AllHexDigits(s: string) {
    forall i :: 0 <= i < |s| ==> IsHexDigit(s[i])
  }

  function HexDigitValue(c: char): (v: nat)
    requires IsHexDigit(c)
    ensures v < 16
  {
    if IsDigit(c) then c as int - '0' as int
    else if 'a' <= c <= 'f' then c as int - 'a' as int + 10
    else c as int - 'A' as int + 10
  }

  /** The longest prefix of `s` made of hexadecimal digits. */
  function HexRun(s: string): (r: string)
    ensures AllHexDigits(r) && r <= s
    ensures |r| == |s| || !IsHexDigit(s[|r|])
    decreases |s|
  {
    if |s| > 0 && IsHexDigit(s[0]) then [s[0]] + HexRun(s[1..]) else ""
  }

  function HexValue(s: string): nat
    requires AllHexDigits(s)
    decreases |s|
  {
    if |s| == 0 then 0 else 16 * HexValue(s[..|s| - 1]) + HexDigitValue(s[|s| - 1])
  }

  /** The digits that follow an optional sign: a `0x`/`0X` prefix selects base 16. */
  function UnsignedPrefix(u: string): (r: Option<nat>)
  {
    if |u| >= 2 && u[0] == '0' && (u[1] == 'x' || u[1] == 'X') then
      var hex := HexRun(u[2..]);
      if |hex| == 0 then None else Some(HexValue(hex))
    else
      var dec := DigitRun(u);
      if |dec| == 0 then None else Some(DecimalValue(dec))
  }

  /**
   * `parseInt(s)` with no radix: skip leading white space, read an optional sign, then the
   * longest run of digits (hexadecimal after `0x`); no digits gives NaN, here None.
   */
  function ParseInt(s: string): (r: Option<int>)
  {
    Signed(TrimStart(s))
  }

  /** An optional sign followed by the unsigned part. */
  function Signed(t: string): (r: Option<int>)
  {
    var negative := |t| > 0 && t[0] == '-';
    var u := if |t| > 0 && (t[0] == '-' || t[0] == '+') then t[1..] else t;
    match UnsignedPrefix(u)
    case None => None
    case Some(m) =>
      var v: int := if negative then -(m as int) else m;
      Some(v)
  }

  /** A string of digits is its own longest digit prefix. */
  lemma {:induction false} DigitRunOfDigits(s: string)
    requires AllDigits(s)
    ensures DigitRun(s) == s
    decreases |s|
  {
    if |s| > 0 {
      DigitRunOfDigits(s[1..]);
      assert [s[0]] + s[1..] == s;
    }
  }

  /** The digits of `String(n)` read back as `n`. */
  lemma UnsignedOfDecimal(n: nat)
    ensures UnsignedPrefix(NatToString(n)) == Some(n)
  {
    var s := NatToString(n);
    DigitRunOfDigits(s);
    DecimalValueOfNatToString(n);
    assert |s| >= 2 ==> IsDigit(s[1]);
  }

  /** White space skipping stops at the first character that is not white space. */
  lemma TrimStartStops(s: string)
    requires |s| > 0 && (IsDigit(s[0]) || s[0] == '-')
    ensures TrimStart(s) == s
  {
    NotWhitespace(s[0]);
  }

  lemma NotWhitespace(c: char)
    requires IsDigit(c) || c == '-'
    ensures !IsJsWhitespace(c)
  {
  }

  /** `parseInt(String(n)) == n`. */
  lemma ParseIntOfDecimal(n: nat)
    ensures ParseInt(NatToString(n)) == Some(n)
  {
    var s := NatToString(n);
    TrimStartStops(s);
    UnsignedOfDecimal(n);
    assert s[0] != '-' && s[0] != '+';
  }

  /** `parseInt(String(i)) == i` for a negative integer. */
  lemma ParseIntOfNegative(i: int)
    requires i < 0
    ensures ParseInt(IntToString(i)) == Some(i)
  {
    var n: nat := -i;
    var s := NatToString(n);
    var m := "-" + s;
    assert IntToString(i) == m;
    TrimStartStops(m);
    UnsignedOfDecimal(n);
    assert m[1..] == s;
  }

  /** `parseInt(String(i)) == i` for every integer. */
  lemma ParseIntOfIntToString(i: int)
    ensures ParseInt(IntToString(i)) == Some(i)
  {
    if i < 0 {
      ParseIntOfNegative(i);
    } else {
      ParseIntOfDecimal(i);
    }
  }

  /** Without a single decimal digit, `parseInt` gives NaN. */
  lemma ParseIntNeedsDigit(s: string)
    requires forall i :: 0 <= i < |s| ==> !IsDigit(s[i])
    ensures ParseInt(s).None?
  {
    var t := TrimStart(s);
    var u := if |t| > 0 && (t[0] == '-' || t[0] == '+') then t[1..] else t;
    if |u| > 0 {
      assert u[0] == s[|s| - |u|];
    }
    UnsignedNeedsDigit(u);
  }

  /** The unsigned part reads nothing when it does not start with a digit. */
  lemma UnsignedNeedsDigit(u: string)
    requires |u| == 0 || !IsDigit(u[0])
    ensures UnsignedPrefix(u).None?
  {
  }
}
