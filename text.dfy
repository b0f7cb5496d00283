/** The JavaScript string operations the tracker relies on: decimal
    printing of a non-negative integer, `padStart(2, "0")`, `split` on a
    non-empty separator, `join`, and `trim`. Each comes with the partner
    that pins it down: a parser that reads the digits back, a join that
    undoes the split, and the decomposition left by trimming. */
module Text {

  predicate IsDigit(c: char) {
    '0' <= c <= '9'
  }

  predicate AllDigits(s: string) {
    forall i :: 0 <= i < |s| ==> IsDigit(s[i])
  }

  function DigitChar(d: nat): (c: char)
    requires d < 10
    ensures IsDigit(c) && c as int - '0' as int == d
  {
    ('0' as int + d) as char
  }

  /** `String(n)` for a non-negative integer: its decimal digits, without
      a leading zero. */
  function NatToString(n: nat): (s: string)
    ensures |s| >= 1 && AllDigits(s)
    ensures n < 10 <==> |s| == 1
    ensures |s| > 1 ==> s[0] != '0'
  {
    if n < 10 then [DigitChar(n)] else NatToString(n / 10) + [DigitChar(n % 10)]
  }

  /** The value of a string of decimal digits (the empty string reads as 0). */
  function ParseDecimal(s: string): nat
    requires AllDigits(s)
  {
    if s == [] then 0
    else ParseDecimal(s[..|s| - 1]) * 10 + (s[|s| - 1] as int - '0' as int)
  }

  /** Reading back the printed digits gives the number again. */
  lemma {:induction false} ParseNatToString(n: nat)
    ensures ParseDecimal(NatToString(n)) == n
  {
    if n >= 10 {
      var a := NatToString(n / 10);
      var s := NatToString(n);
      assert s == a + [DigitChar(n % 10)];
      assert s[..|s| - 1] == a;
      ParseNatToString(n / 10);
    }
  }

  /** A leading zero does not change the value of a digit string. */
  lemma {:induction false} ParseLeadingZero(s: string)
    requires AllDigits(s)
    ensures AllDigits("0" + s) && ParseDecimal("0" + s) == ParseDecimal(s)
  {
    var z := "0" + s;
    if s != [] {
      assert z[..|z| - 1] == "0" + s[..|s| - 1];
      ParseLeadingZero(s[..|s| - 1]);
    }
  }

  /** `padStart(2, "0")`. */
  function PadStart2(s: string): string {
    if |s| == 0 then "00" else if |s| == 1 then "0" + s else s
  }

  /** Padding a printed number yields at least two digits that still read
      as the number, and exactly two when the number is below 100. */
  lemma PaddedNumber(n: nat)
    ensures AllDigits(PadStart2(NatToString(n)))
    ensures ParseDecimal(PadStart2(NatToString(n))) == n
    ensures n < 100 <==> |PadStart2(NatToString(n))| == 2
  {
    var s := NatToString(n);
    ParseNatToString(n);
    if |s| == 1 {
      ParseLeadingZero(s);
    } else {
      assert n >= 10;
      var a := NatToString(n / 10);
      assert n / 10 < 10 <==> |a| == 1;
    }
  }

  // ---------------------------------------------------------------------
  // split and join

  /** `sep` occurs in `s` at position `i`. */
  predicate OccursAt(s: string, sep: string, i: int) {
    0 <= i && i + |sep| <= |s| && s[i..i + |sep|] == sep
  }

  predicate Contains(s: string, sep: string) {
    exists i :: 0 <= i <= |s| && OccursAt(s, sep, i)
  }

  /** `s.split(sep)` for a non-empty separator: the pieces between the
      non-overlapping occurrences of `sep`, scanning from the left. */
  function Split(s: string, sep: string): (r: seq<string>)
    requires sep != []
    ensures |r| >= 1
    decreases |s|
  {
    if |s| < |sep| then [s]
    else if s[..|sep|] == sep then [""] + Split(s[|sep|..], sep)
    else
      var rest := Split(s[1..], sep);
      [[s[0]] + rest[0]] + rest[1..]
  }

  /** Concatenation is associative. */
  lemma ConcatAssoc<T>(a: seq<T>, b: seq<T>, c: seq<T>)
    ensures a + (b + c) == a + b + c
  {
  }

  /** `parts.join(sep)`; joining no parts gives the empty string. */
  function Join(parts: seq<string>, sep: string): string {
    if parts == [] then ""
    else if |parts| == 1 then parts[0]
    else parts[0] + sep + Join(parts[1..], sep)
  }

  /** Joining the pieces of a split with the same separator restores the
      original string. */
  lemma {:induction false} SplitJoin(s: string, sep: string)
    requires sep != []
    ensures Join(Split(s, sep), sep) == s
    decreases |s|
  {
    if |s| < |sep| {
    } else if s[..|sep|] == sep {
      var rest := Split(s[|sep|..], sep);
      SplitJoin(s[|sep|..], sep);
      var r := [""] + rest;
      assert Split(s, sep) == r;
      assert r[0] == "" && r[1..] == rest;
      assert Join(r, sep) == "" + sep + Join(rest, sep);
      assert s == sep + s[|sep|..];
    } else {
      var rest := Split(s[1..], sep);
      SplitJoin(s[1..], sep);
      var p := [s[0]] + rest[0];
      var r := [p] + rest[1..];
      assert Split(s, sep) == r;
      assert s == [s[0]] + s[1..];
      if |rest| == 1 {
        assert r == [p];
      } else {
        var tail := Join(rest[1..], sep);
        assert r[0] == p && r[1..] == rest[1..];
        assert Join(r, sep) == p + sep + tail;
        assert Join(rest, sep) == rest[0] + sep + tail;
        ConcatAssoc([s[0]], rest[0], sep);
        ConcatAssoc([s[0]], rest[0] + sep, tail);
      }
    }
  }

  /** No piece of a split contains the separator. */
  lemma {:induction false} SplitPiecesFree(s: string, sep: string)
    requires sep != []
    ensures forall i :: 0 <= i < |Split(s, sep)| ==> !Contains(Split(s, sep)[i], sep)
    decreases |s|
  {
    var r := Split(s, sep);
    if |s| < |sep| {
      ShortFree(s, sep);
    } else if s[..|sep|] == sep {
      var rest := Split(s[|sep|..], sep);
      SplitPiecesFree(s[|sep|..], sep);
      assert r == [""] + rest;
      ShortFree("", sep);
      forall i | 0 <= i < |r| ensures !Contains(r[i], sep) {
        if i > 0 { assert r[i] == rest[i - 1]; }
      }
    } else {
      var rest := Split(s[1..], sep);
      SplitPiecesFree(s[1..], sep);
      SplitHeadPrefix(s[1..], sep);
      var p := [s[0]] + rest[0];
      assert r == [p] + rest[1..];
      ConsFree(s, rest[0], sep);
      forall i | 0 <= i < |r| ensures !Contains(r[i], sep) {
        if i > 0 { assert r[i] == rest[i]; }
      }
    }
  }

  lemma ShortFree(s: string, sep: string)
    requires |s| < |sep|
    ensures !Contains(s, sep)
  {
    forall i ensures !OccursAt(s, sep, i) {}
  }

  /** The first piece of a split is a prefix of the text. */
  lemma SplitHeadPrefix(s: string, sep: string)
    requires sep != []
    ensures Split(s, sep)[0] <= s
  {
    SplitJoin(s, sep);
    JoinHeadPrefix(Split(s, sep), sep);
  }

  /** Putting the first character of a text that does not start with
      `sep` in front of a separator-free prefix of the rest gives a
      separator-free text. */
  lemma ConsFree(s: string, t: string, sep: string)
    requires sep != [] && |s| >= |sep| && s[..|sep|] != sep
    requires t <= s[1..] && !Contains(t, sep)
    ensures !Contains([s[0]] + t, sep)
  {
    var p := [s[0]] + t;
    assert p <= s by {
      assert s == [s[0]] + s[1..];
    }
    forall i ensures !OccursAt(p, sep, i) {
      if i == 0 && OccursAt(p, sep, 0) {
        assert false;
      } else if i > 0 && OccursAt(p, sep, i) {
        assert p[i..i + |sep|] == t[i - 1..i - 1 + |sep|];
        assert OccursAt(t, sep, i - 1);
        assert false;
      }
    }
  }

  /** Joining a sequence of at least two pieces ends with the separator
      followed by the last piece. */
  lemma {:induction false} JoinSnoc(parts: seq<string>, sep: string)
    requires |parts| >= 2
    ensures Join(parts, sep) == Join(parts[..|parts| - 1], sep) + sep + parts[|parts| - 1]
  {
    if |parts| > 2 {
      JoinSnoc(parts[1..], sep);
      assert parts[1..][..|parts| - 2] == parts[..|parts| - 1][1..];
    }
  }

  /** The first piece of a split is the text before the first occurrence
      of the separator, or the whole string when there is none. */
  lemma SplitFirst(s: string, sep: string)
    requires sep != []
    ensures !Contains(Split(s, sep)[0], sep)
    ensures |Split(s, sep)| == 1 <==> !Contains(s, sep)
    ensures |Split(s, sep)| == 1 ==> Split(s, sep)[0] == s
    ensures |Split(s, sep)| > 1 ==> s == Split(s, sep)[0] + sep + Join(Split(s, sep)[1..], sep)
  {
    var r := Split(s, sep);
    SplitJoin(s, sep);
    SplitPiecesFree(s, sep);
    if |r| > 1 {
      assert s == r[0] + sep + Join(r[1..], sep);
      assert s[|r[0]|..|r[0]| + |sep|] == sep;
      assert OccursAt(s, sep, |r[0]|);
    }
  }

  /** The first piece of a split holds no separator. */
  lemma SplitHeadFree(s: string, sep: string)
    requires sep != []
    ensures !Contains(Split(s, sep)[0], sep)
  {
    SplitFirst(s, sep);
  }

  /** The last piece of a split is the text after the last occurrence of
      the separator, or the whole string when there is none. */
  lemma SplitLast(s: string, sep: string)
    requires sep != []
    ensures !Contains(Split(s, sep)[|Split(s, sep)| - 1], sep)
    ensures |Split(s, sep)| == 1 ==> Split(s, sep)[0] == s
    ensures |Split(s, sep)| > 1 ==>
      s == Join(Split(s, sep)[..|Split(s, sep)| - 1], sep) + sep + Split(s, sep)[|Split(s, sep)| - 1]
  {
    var r := Split(s, sep);
    SplitJoin(s, sep);
    SplitPiecesFree(s, sep);
    if |r| > 1 {
      JoinSnoc(r, sep);
    }
  }

  /** A string cut out of one free of `sep` is free of `sep` too. */
  lemma InfixFree(s: string, k: nat, t: string, sep: string)
    requires k + |t| <= |s| && t == s[k..k + |t|]
    requires !Contains(s, sep)
    ensures !Contains(t, sep)
  {
    forall i | OccursAt(t, sep, i) ensures false {
      forall j | 0 <= j < |sep| ensures s[k + i..k + i + |sep|][j] == sep[j] {
        assert t[i + j] == s[k + i + j];
      }
      assert s[k + i..k + i + |sep|] == sep;
      assert OccursAt(s, sep, k + i);
    }
  }

  /** A string in which no window of the separator's length has the
      separator's `j`-th character in place `j` does not contain it. */
  lemma NoWindowNoContains(s: string, sep: string, j: nat)
    requires j < |sep|
    requires forall k :: j <= k && k - j + |sep| <= |s| ==> s[k] != sep[j]
    ensures !Contains(s, sep)
  {
    forall i | 0 <= i <= |s| ensures !OccursAt(s, sep, i) {
      if i + |sep| <= |s| {
        assert s[i..i + |sep|][j] != sep[j];
      }
    }
  }

  /** The first piece of a split ends where the first occurrence of the
      separator begins. */
  lemma {:induction false} SplitFirstPiece(s: string, sep: string, k: nat)
    requires sep != []
    requires OccursAt(s, sep, k)
    requires forall i :: 0 <= i < k ==> !OccursAt(s, sep, i)
    ensures Split(s, sep)[0] == s[..k]
    decreases k
  {
    if k == 0 {
      assert s[..|sep|] == sep;
    } else {
      assert !OccursAt(s, sep, 0);
      var t := s[1..];
      forall i | 0 <= i < k - 1 ensures !OccursAt(t, sep, i) {
        assert !OccursAt(s, sep, i + 1);
        if i + |sep| <= |t| {
          assert t[i..i + |sep|] == s[i + 1..i + 1 + |sep|];
        }
      }
      assert t[k - 1..k - 1 + |sep|] == s[k..k + |sep|];
      SplitFirstPiece(t, sep, k - 1);
      assert s[..k] == [s[0]] + t[..k - 1];
    }
  }

  /** The first two pieces of a split, with the separator between them,
      begin the split string; the second piece runs up to the next
      separator or to the end. */
  lemma SplitFirstTwo(s: string, sep: string)
    requires sep != [] && |Split(s, sep)| > 1
    ensures Split(s, sep)[0] + sep + Split(s, sep)[1] <= s
    ensures Split(s, sep)[0] + sep + Split(s, sep)[1] == s ||
      Split(s, sep)[0] + sep + Split(s, sep)[1] + sep <= s
  {
    var parts := Split(s, sep);
    SplitFirst(s, sep);
    var tail := parts[1..];
    JoinHeadPrefix(tail, sep);
    PrefixAfter(parts[0] + sep, parts[1], Join(tail, sep));
    if |tail| > 1 {
      var rest := Join(tail[1..], sep);
      assert Join(tail, sep) == tail[0] + sep + rest;
      ConcatAssoc(tail[0], sep, rest);
      PrefixAfter(parts[0] + sep, tail[0] + sep, Join(tail, sep));
      ConcatAssoc(parts[0] + sep, tail[0], sep);
    }
  }

  /** The first piece of a join begins it. */
  lemma JoinHeadPrefix(parts: seq<string>, sep: string)
    requires parts != []
    ensures parts[0] <= Join(parts, sep)
  {
    if |parts| > 1 {
      ConcatAssoc(parts[0], sep, Join(parts[1..], sep));
    }
  }

  /** A prefix stays a prefix behind a common beginning. */
  lemma PrefixAfter<T>(a: seq<T>, b: seq<T>, c: seq<T>)
    requires b <= c
    ensures a + b <= a + c
  {
    assert (a + c)[..|a + b|] == a + b;
  }

  /** Joining two or more pieces puts the separator in. */
  lemma JoinContains(parts: seq<string>, sep: string)
    requires |parts| >= 2
    ensures Contains(Join(parts, sep), sep)
  {
    var j := Join(parts, sep);
    assert j == parts[0] + sep + Join(parts[1..], sep);
    assert j[|parts[0]|..|parts[0]| + |sep|] == sep;
    assert OccursAt(j, sep, |parts[0]|);
  }

  /** Splitting on a one-character separator: a first part free of that
      character comes off as the first piece. */
  lemma {:induction false} SplitAfterFree(x: string, c: char, y: string)
    requires forall i :: 0 <= i < |x| ==> x[i] != c
    ensures Split(x + [c] + y, [c]) == [x] + Split(y, [c])
    decreases |x|
  {
    var s := x + [c] + y;
    if x == [] {
      assert s[..1] == [c];
      assert s[1..] == y;
    } else {
      assert s[..1] != [c] by { assert s[..1][0] == x[0]; }
      assert s[1..] == x[1..] + [c] + y;
      SplitAfterFree(x[1..], c, y);
      assert [s[0]] + x[1..] == x;
    }
  }

  /** Three pieces free of a one-character separator, joined by it, split
      back into the three. */
  lemma SplitThree(x: string, y: string, z: string, c: char)
    requires forall i :: 0 <= i < |x| ==> x[i] != c
    requires forall i :: 0 <= i < |y| ==> y[i] != c
    requires forall i :: 0 <= i < |z| ==> z[i] != c
    ensures Split(x + [c] + y + [c] + z, [c]) == [x, y, z]
  {
    assert x + [c] + y + [c] + z == x + [c] + (y + [c] + z);
    SplitAfterFree(x, c, y + [c] + z);
    SplitAfterFree(y, c, z);
    SplitFree(z, c);
  }

  /** A string free of a one-character separator splits into itself. */
  lemma {:induction false} SplitFree(y: string, c: char)
    requires forall i :: 0 <= i < |y| ==> y[i] != c
    ensures Split(y, [c]) == [y]
    decreases |y|
  {
    if y != [] {
      assert y[..1] != [c] by { assert y[..1][0] == y[0]; }
      SplitFree(y[1..], c);
      assert [y[0]] + y[1..] == y;
    }
  }

  /** Splitting undoes joining when no piece holds the separator. */
  lemma {:induction false} JoinSplitChar(parts: seq<string>, c: char)
    requires |parts| >= 1
    requires forall k, i :: 0 <= k < |parts| && 0 <= i < |parts[k]| ==> parts[k][i] != c
    ensures Split(Join(parts, [c]), [c]) == parts
  {
    if |parts| == 1 {
      SplitFree(parts[0], c);
    } else {
      JoinSplitChar(parts[1..], c);
      SplitAfterFree(parts[0], c, Join(parts[1..], [c]));
      assert [parts[0]] + parts[1..] == parts;
    }
  }

  // ---------------------------------------------------------------------
  // trim

  /** The characters `String.prototype.trim` removes: the ECMAScript
      WhiteSpace and LineTerminator code points. */
  predicate IsWhitespace(c: char) {
    c == '\t' || c == '\n' || c == '\U{B}' || c == '\U{C}' || c == '\r' || c == ' '
    || c == '\U{A0}' || c == '\U{1680}' || ('\U{2000}' <= c <= '\U{200A}')
    || c == '\U{2028}' || c == '\U{2029}' || c == '\U{202F}' || c == '\U{205F}'
    || c == '\U{3000}' || c == '\U{FEFF}'
  }

  /** Drops leading whitespace: the result is the suffix that starts at the
      first non-whitespace character. */
  function TrimStart(s: string): (r: string)
    ensures |r| <= |s| && r == s[|s| - |r|..]
    ensures r == [] || !IsWhitespace(r[0])
  {
    if s != [] && IsWhitespace(s[0]) then TrimStart(s[1..]) else s
  }

  /** Drops trailing whitespace: the result is the prefix that ends at the
      last non-whitespace character. */
  function TrimEnd(s: string): (r: string)
    ensures |r| <= |s| && r == s[..|r|]
    ensures r == [] || !IsWhitespace(r[|r| - 1])
  {
    if s != [] && IsWhitespace(s[|s| - 1]) then TrimEnd(s[..|s| - 1]) else s
  }

  /** Everything `TrimStart` drops is whitespace. */
  lemma {:induction false} TrimStartDropsSpace(s: string)
    ensures forall i :: 0 <= i < |s| - |TrimStart(s)| ==> IsWhitespace(s[i])
  {
    if s != [] && IsWhitespace(s[0]) {
      TrimStartDropsSpace(s[1..]);
      forall i | 1 <= i < |s| - |TrimStart(s)| ensures IsWhitespace(s[i]) {
        assert s[i] == s[1..][i - 1];
      }
    }
  }

  /** Everything `TrimEnd` drops is whitespace. */
  lemma {:induction false} TrimEndDropsSpace(s: string)
    ensures forall i :: |TrimEnd(s)| <= i < |s| ==> IsWhitespace(s[i])
  {
    if s != [] && IsWhitespace(s[|s| - 1]) {
      TrimEndDropsSpace(s[..|s| - 1]);
      forall i | |TrimEnd(s)| <= i < |s| - 1 ensures IsWhitespace(s[i]) {
        assert s[i] == s[..|s| - 1][i];
      }
    }
  }

  /** `s.trim()`. */
  function Trim(s: string): string {
    TrimEnd(TrimStart(s))
  }

  /** Trimming cuts a piece out of the string: only whitespace lies on
      either side of it, and it neither starts nor ends with whitespace. */
  lemma TrimInfix(s: string)
    ensures |s| - |TrimStart(s)| + |Trim(s)| <= |s|
    ensures Trim(s) == s[|s| - |TrimStart(s)|..|s| - |TrimStart(s)| + |Trim(s)|]
    ensures forall i :: 0 <= i < |s| - |TrimStart(s)| ==> IsWhitespace(s[i])
    ensures forall i :: |s| - |TrimStart(s)| + |Trim(s)| <= i < |s| ==> IsWhitespace(s[i])
    ensures Trim(s) == [] || (!IsWhitespace(Trim(s)[0]) && !IsWhitespace(Trim(s)[|Trim(s)| - 1]))
  {
    TrimSlice(s);
    TrimPadding(s);
    TrimEnds(s);
  }

  lemma TrimPadding(s: string)
    ensures forall i :: 0 <= i < |s| - |TrimStart(s)| ==> IsWhitespace(s[i])
    ensures forall i :: |s| - |TrimStart(s)| + |Trim(s)| <= i < |s| ==> IsWhitespace(s[i])
  {
    var t := TrimStart(s);
    var k := |s| - |t|;
    var r := TrimEnd(t);
    TrimStartDropsSpace(s);
    TrimEndDropsSpace(t);
    assert t == s[k..];
    forall i | k + |r| <= i < |s| ensures IsWhitespace(s[i]) {
      assert s[i] == t[i - k];
    }
  }

  lemma TrimEnds(s: string)
    ensures Trim(s) == [] || (!IsWhitespace(Trim(s)[0]) && !IsWhitespace(Trim(s)[|Trim(s)| - 1]))
  {
    var t := TrimStart(s);
    var r := TrimEnd(t);
    if r != [] {
      assert r == t[..|r|];
      assert r[0] == t[0];
    }
  }

  /** Whatever the text does not contain, its trimmed copy does not
      contain either. */
  lemma TrimmedFree(s: string, sep: string)
    requires !Contains(s, sep)
    ensures !Contains(Trim(s), sep)
  {
    var t := Trim(s);
    var k := |s| - |TrimStart(s)|;
    TrimSlice(s);
    assert k + |t| <= |s| && t == s[k..k + |t|];
    InfixFree(s, k, t, sep);
  }

  lemma TrimSlice(s: string)
    ensures var k := |s| - |TrimStart(s)|;
      k + |Trim(s)| <= |s| && Trim(s) == s[k..k + |Trim(s)|]
  {
    var t := TrimStart(s);
    var k := |s| - |t|;
    var r := TrimEnd(t);
    PrefixOfSuffix(s, t, r, k);
  }

  /** A prefix of a suffix is a slice of the whole. */
  lemma PrefixOfSuffix<T>(s: seq<T>, t: seq<T>, r: seq<T>, k: nat)
    requires k <= |s| && t == s[k..] && |r| <= |t| && r == t[..|r|]
    ensures k + |r| <= |s| && r == s[k..k + |r|]
  {
  }

  /** Trimming leaves a string alone that neither starts nor ends with
      whitespace. */
  lemma TrimUnpadded(s: string)
    requires s == [] || (!IsWhitespace(s[0]) && !IsWhitespace(s[|s| - 1]))
    ensures Trim(s) == s
  {
    assert TrimStart(s) == s;
    assert TrimEnd(s) == s;
  }
}
