/** The pieces of Rust's `str` and integer formatting that the server relies on:
    splitting on a pattern and joining, Unicode whitespace trimming, decimal
    formatting and unsigned parsing, and UTF-8 encoding of text onto the wire. */
module Text {
  import opened Wrappers

  /** One byte of the wire. */
  type byte = b: int | 0 <= b < 0x100

  // ---------------------------------------------------------------------------
  // Occurrences of a pattern

  /** `pat` occurs in `s` starting at index `i`. */
  predicate OccursAt(s: string, pat: string, i: int)
  {
    0 <= i && i + |pat| <= |s| && s[i..i + |pat|] == pat
  }

  /** `pat` occurs somewhere in `s`. */
  predicate Contains(s: string, pat: string)
  {
    exists i | 0 <= i <= |s| :: OccursAt(s, pat, i)
  }

  /** The first index at or after `from` where `pat` occurs in `s`. */
  function IndexFrom(s: string, pat: string, from: nat): (r: Option<nat>)
    requires |pat| > 0
    ensures r.Some? ==> from <= r.value && OccursAt(s, pat, r.value)
    ensures r.Some? ==> forall j | from <= j < r.value :: !OccursAt(s, pat, j)
    ensures r.None? ==> forall j | from <= j :: !OccursAt(s, pat, j)
    decreases |s| - from
  {
    if from + |pat| > |s| then None
    else if OccursAt(s, pat, from) then Some(from)
    else IndexFrom(s, pat, from + 1)
  }

  /** An occurrence at `k` with none before it is the first one. */
  lemma IndexFromIs(s: string, pat: string, k: nat)
    requires |pat| > 0 && OccursAt(s, pat, k)
    requires forall j | 0 <= j < k :: !OccursAt(s, pat, j)
    ensures IndexFrom(s, pat, 0) == Some(k)
  {
  }

  /** An occurrence inside a prefix is an occurrence in the whole. */
  lemma PrefixOccurs(s: string, n: nat, pat: string, j: int)
    requires n <= |s| && OccursAt(s[..n], pat, j)
    ensures OccursAt(s, pat, j)
  {
    assert s[..n][j..j + |pat|] == s[j..j + |pat|];
  }

  /** A one-character pattern occurs exactly where that character stands. */
  lemma OccursAtChar(s: string, c: char, i: int)
    ensures OccursAt(s, [c], i) <==> 0 <= i < |s| && s[i] == c
  {
    if 0 <= i < |s| {
      assert s[i..i + 1] == [s[i]];
    }
  }

  /** A one-character pattern is contained exactly when the character is. */
  lemma ContainsChar(s: string, c: char)
    ensures Contains(s, [c]) <==> c in s
  {
    if c in s {
      var i :| 0 <= i < |s| && s[i] == c;
      OccursAtChar(s, c, i);
    }
    if Contains(s, [c]) {
      var i :| 0 <= i <= |s| && OccursAt(s, [c], i);
      OccursAtChar(s, c, i);
    }
  }

  // ---------------------------------------------------------------------------
  // Splitting and joining

  /** The first index at or after `i` whose character is not `c`, or `|s|`. */
  function SkipChar(s: string, c: char, i: nat): (n: nat)
    requires i <= |s|
    ensures i <= n <= |s|
    ensures forall k | i <= k < n :: s[k] == c
    ensures n < |s| ==> s[n] != c
    decreases |s| - i
  {
    if i < |s| && s[i] == c then SkipChar(s, c, i + 1) else i
  }

  /** The first index at or after `i` whose character is `c`, or `|s|`. */
  function FindChar(s: string, c: char, i: nat): (n: nat)
    requires i <= |s|
    ensures i <= n <= |s|
    ensures forall k | i <= k < n :: s[k] != c
    ensures n < |s| ==> s[n] == c
    decreases |s| - i
  {
    if i < |s| && s[i] != c then FindChar(s, c, i + 1) else i
  }

  /** Without `c`, the search runs to the end. */
  lemma {:induction false} FindCharEnd(s: string, c: char, i: nat)
    requires i <= |s| && c !in s
    ensures FindChar(s, c, i) == |s|
    decreases |s| - i
  {
    if i < |s| {
      assert s[i] in s;
      FindCharEnd(s, c, i + 1);
    }
  }

  /** The search stops at the first `c`. */
  lemma {:induction false} FindCharIs(s: string, c: char, i: nat, n: nat)
    requires i <= n < |s| && s[n] == c
    requires forall k | i <= k < n :: s[k] != c
    ensures FindChar(s, c, i) == n
    decreases n - i
  {
    if i < n {
      FindCharIs(s, c, i + 1, n);
    }
  }

  /** `str::split` with a non-empty pattern: the pieces between successive
      non-overlapping occurrences of `pat`, found left to right. */
  function Split(s: string, pat: string): (parts: seq<string>)
    requires |pat| > 0
    ensures |parts| >= 1
    decreases |s|
  {
    match IndexFrom(s, pat, 0)
    case None => [s]
    case Some(i) => [s[..i]] + Split(s[i + |pat|..], pat)
  }

  /** The pieces glued back together with `sep` between neighbours. */
  function Join(parts: seq<string>, sep: string): string
    decreases |parts|
  {
    if |parts| == 0 then ""
    else if |parts| == 1 then parts[0]
    else parts[0] + sep + Join(parts[1..], sep)
  }

  lemma JoinCons(a: string, tail: seq<string>, sep: string)
    requires |tail| >= 1
    ensures Join([a] + tail, sep) == a + sep + Join(tail, sep)
  {
    assert ([a] + tail)[1..] == tail;
  }

  /** Joining a sequence with one more piece at the end adds a separator and the piece. */
  lemma {:induction false} JoinSnoc(parts: seq<string>, x: string, sep: string)
    requires |parts| >= 1
    ensures Join(parts + [x], sep) == Join(parts, sep) + sep + x
    decreases |parts|
  {
    if |parts| == 1 {
      assert parts + [x] == [parts[0]] + [x];
      JoinCons(parts[0], [x], sep);
    } else {
      JoinSnoc(parts[1..], x, sep);
      assert parts + [x] == [parts[0]] + (parts[1..] + [x]);
      JoinCons(parts[0], parts[1..] + [x], sep);
      assert parts == [parts[0]] + parts[1..];
      JoinCons(parts[0], parts[1..], sep);
    }
  }

  /** Joining the pieces of a split gives back the string. */
  lemma {:induction false} JoinSplit(s: string, pat: string)
    requires |pat| > 0
    ensures Join(Split(s, pat), pat) == s
    decreases |s|
  {
    match IndexFrom(s, pat, 0)
    case None =>
    case Some(i) =>
      var rest := s[i + |pat|..];
      JoinSplit(rest, pat);
      JoinCons(s[..i], Split(rest, pat), pat);
      CutAt(s, i, |pat|);
  }

  /** A string is its prefix, a middle part of length `n`, and the rest. */
  lemma CutAt(s: string, i: nat, n: nat)
    requires i + n <= |s|
    ensures s == s[..i] + s[i..i + n] + s[i + n..]
  {
  }

  /** The text before the first occurrence does not contain the pattern. */
  lemma FirstPieceFree(s: string, pat: string, i: nat)
    requires |pat| > 0 && IndexFrom(s, pat, 0) == Some(i)
    ensures !Contains(s[..i], pat)
  {
    forall j | 0 <= j <= i ensures !OccursAt(s[..i], pat, j) {
      if j + |pat| <= i {
        assert !OccursAt(s, pat, j);
        assert s[..i][j..j + |pat|] == s[j..j + |pat|];
      }
    }
  }

  /** No piece of a split contains the pattern. */
  lemma {:induction false} SplitPiecesFree(s: string, pat: string)
    requires |pat| > 0
    ensures forall k | 0 <= k < |Split(s, pat)| :: !Contains(Split(s, pat)[k], pat)
    decreases |s|
  {
    match IndexFrom(s, pat, 0)
    case None =>
      assert Split(s, pat) == [s];
      assert forall j | 0 <= j <= |s| :: !OccursAt(s, pat, j);
    case Some(i) =>
      var rest := s[i + |pat|..];
      SplitPiecesFree(rest, pat);
      FirstPieceFree(s, pat, i);
      assert Split(s, pat) == [s[..i]] + Split(rest, pat);
  }

  /** A string without the pattern splits into itself. */
  lemma SplitWithout(s: string, pat: string)
    requires |pat| > 0 && !Contains(s, pat)
    ensures Split(s, pat) == [s]
  {
    var r := IndexFrom(s, pat, 0);
    assert r.Some? ==> Contains(s, pat);
  }

  /** No occurrence of `pat` starts inside `a` when `pat` is put after it. */
  predicate NoEarlyMatch(a: string, pat: string)
  {
    forall j | 0 <= j < |a| :: !OccursAt(a + pat, pat, j)
  }

  /** Splitting `a + pat + b` cuts at the `pat` right after `a` when nothing matches earlier. */
  lemma SplitCons(a: string, pat: string, b: string)
    requires |pat| > 0 && NoEarlyMatch(a, pat)
    ensures Split(a + pat + b, pat) == [a] + Split(b, pat)
  {
    var s := a + pat + b;
    assert s[..|a| + |pat|] == a + pat;
    assert s[|a|..|a| + |pat|] == pat;
    forall j | 0 <= j < |a| ensures !OccursAt(s, pat, j) {
      if OccursAt(s, pat, j) {
        assert s[j..j + |pat|] == (a + pat)[j..j + |pat|];
        assert OccursAt(a + pat, pat, j);
      }
    }
    IndexFromIs(s, pat, |a|);
    assert s[..|a|] == a;
    assert s[|a| + |pat|..] == b;
  }

  /** Splitting a join gives back the pieces, when no piece lets the pattern match early
      and the last piece does not contain it. */
  lemma {:induction false} SplitJoinInverse(parts: seq<string>, pat: string)
    requires |pat| > 0 && |parts| >= 1
    requires forall k | 0 <= k < |parts| - 1 :: NoEarlyMatch(parts[k], pat)
    requires !Contains(parts[|parts| - 1], pat)
    ensures Split(Join(parts, pat), pat) == parts
    decreases |parts|
  {
    if |parts| == 1 {
      SplitWithout(parts[0], pat);
    } else {
      SplitJoinInverse(parts[1..], pat);
      assert parts == [parts[0]] + parts[1..];
      JoinCons(parts[0], parts[1..], pat);
      SplitCons(parts[0], pat, Join(parts[1..], pat));
    }
  }

  /** A one-character pattern never matches early after a piece that lacks it. */
  lemma NoEarlyMatchChar(a: string, c: char)
    requires c !in a
    ensures NoEarlyMatch(a, [c])
  {
    forall j | 0 <= j < |a| ensures !OccursAt(a + [c], [c], j) {
      OccursAtChar(a + [c], c, j);
      assert (a + [c])[j] == a[j];
    }
  }

  /** `": "` never matches early after a piece that does not contain it. */
  lemma NoEarlyMatchColonSpace(a: string)
    requires !Contains(a, ": ")
    ensures NoEarlyMatch(a, ": ")
  {
    forall j | 0 <= j < |a| ensures !OccursAt(a + ": ", ": ", j) {
      if j + 2 <= |a| {
        assert (a + ": ")[j..j + 2] == a[j..j + 2];
        assert !OccursAt(a, ": ", j);
      } else {
        assert (a + ": ")[j + 1] == ':';
      }
    }
  }

  /** Splitting on a character gives one piece more than there are occurrences of it. */
  lemma {:induction false} SplitCharCount(s: string, c: char)
    ensures |Split(s, [c])| == multiset(s)[c] + 1
    decreases |s|
  {
    ContainsChar(s, c);
    match IndexFrom(s, [c], 0)
    case None =>
      assert !Contains(s, [c]);
    case Some(i) =>
      OccursAtChar(s, c, i);
      var rest := s[i + 1..];
      SplitCharCount(rest, c);
      FirstPieceFree(s, [c], i);
      ContainsChar(s[..i], c);
      CountAfterFirst(s, c, i);
  }

  lemma CountAfterFirst(s: string, c: char, i: nat)
    requires i < |s| && s[i] == c && c !in s[..i]
    ensures multiset(s)[c] == multiset(s[i + 1..])[c] + 1
  {
    assert s == s[..i] + [c] + s[i + 1..];
    assert c !in multiset(s[..i]);
  }

  // ---------------------------------------------------------------------------
  // Whitespace trimming

  /** Unicode White_Space, the set `char::is_whitespace` tests. */
  predicate IsWhitespace(c: char)
  {
    var n := c as int;
    (0x09 <= n <= 0x0D) || n == 0x20 || n == 0x85 || n == 0xA0 || n == 0x1680
    || (0x2000 <= n <= 0x200A) || n == 0x2028 || n == 0x2029 || n == 0x202F
    || n == 0x205F || n == 0x3000
  }

  predicate AllWhitespace(s: string)
  {
    forall i | 0 <= i < |s| :: IsWhitespace(s[i])
  }

  /** Neither end of `s` is whitespace. */
  predicate IsTrimmed(s: string)
  {
    s == [] || (!IsWhitespace(s[0]) && !IsWhitespace(s[|s| - 1]))
  }

  /** The first index at or after `i` that does not hold whitespace, or `|s|`. */
  function LeadingEnd(s: string, i: nat): (n: nat)
    requires i <= |s|
    ensures i <= n <= |s|
    ensures forall k | i <= k < n :: IsWhitespace(s[k])
    ensures n < |s| ==> !IsWhitespace(s[n])
    decreases |s| - i
  {
    if i < |s| && IsWhitespace(s[i]) then LeadingEnd(s, i + 1) else i
  }

  /** The least `n` in `lo..j` such that `s[n..j]` is all whitespace. */
  function TrailingStart(s: string, lo: nat, j: nat): (n: nat)
    requires lo <= j <= |s|
    ensures lo <= n <= j
    ensures forall k | n <= k < j :: IsWhitespace(s[k])
    ensures n > lo ==> !IsWhitespace(s[n - 1])
    decreases j
  {
    if j > lo && IsWhitespace(s[j - 1]) then TrailingStart(s, lo, j - 1) else j
  }

  /** `str::trim`: `s` without its leading whitespace, then without its trailing whitespace. */
  function Trim(s: string): (r: string)
    ensures IsTrimmed(r)
  {
    var a := LeadingEnd(s, 0);
    s[a..TrailingStart(s, a, |s|)]
  }

  lemma {:induction false} LeadingEndIs(s: string, i: nat, n: nat)
    requires i <= n <= |s|
    requires forall k | i <= k < n :: IsWhitespace(s[k])
    requires n < |s| ==> !IsWhitespace(s[n])
    ensures LeadingEnd(s, i) == n
    decreases n - i
  {
    if i < n {
      LeadingEndIs(s, i + 1, n);
    }
  }

  lemma {:induction false} TrailingStartIs(s: string, lo: nat, j: nat, n: nat)
    requires lo <= n <= j <= |s|
    requires forall k | n <= k < j :: IsWhitespace(s[k])
    requires n > lo ==> !IsWhitespace(s[n - 1])
    ensures TrailingStart(s, lo, j) == n
    decreases j - n
  {
    if n < j {
      TrailingStartIs(s, lo, j - 1, n);
    }
  }

  /** A string trims to nothing exactly when it is all whitespace. */
  lemma TrimBlank(s: string)
    ensures Trim(s) == [] <==> AllWhitespace(s)
  {
    var a := LeadingEnd(s, 0);
    var b := TrailingStart(s, a, |s|);
    if a < |s| {
      assert !IsWhitespace(s[a]);
      assert b > a;
    }
  }

  /** Trimming removes exactly the whitespace padding around a trimmed core. */
  lemma TrimPadded(pre: string, core: string, post: string)
    requires AllWhitespace(pre) && AllWhitespace(post) && IsTrimmed(core)
    ensures Trim(pre + core + post) == core
  {
    var s := pre + core + post;
    if core == [] {
      assert AllWhitespace(s) by {
        forall k | 0 <= k < |s| ensures IsWhitespace(s[k]) {
          if k < |pre| {
            assert s[k] == pre[k];
          } else {
            assert s[k] == post[k - |pre|];
          }
        }
      }
      TrimBlank(s);
    } else {
      var e := |pre| + |core|;
      forall k | 0 <= k < |pre| ensures IsWhitespace(s[k]) {
        assert s[k] == pre[k];
      }
      assert s[|pre|] == core[0];
      LeadingEndIs(s, 0, |pre|);
      forall k | e <= k < |s| ensures IsWhitespace(s[k]) {
        assert s[k] == post[k - e];
      }
      assert s[e - 1] == core[|core| - 1];
      TrailingStartIs(s, |pre|, |s|, e);
      assert s[|pre|..e] == core;
    }
  }

  /** A trimmed string is its own trim. */
  lemma TrimTrimmed(s: string)
    requires IsTrimmed(s)
    ensures Trim(s) == s
  {
    TrimPadded("", s, "");
    assert "" + s + "" == s;
  }

  /** Each piece trimmed, in order (`.map(|x| x.trim())`). */
  function TrimAll(parts: seq<string>): (r: seq<string>)
    ensures |r| == |parts|
    ensures forall k | 0 <= k < |r| :: r[k] == Trim(parts[k])
  {
    seq(|parts|, k requires 0 <= k < |parts| => Trim(parts[k]))
  }

  // ---------------------------------------------------------------------------
  // Decimal numbers

  predicate IsDigit(c: char)
  {
    '0' <= c <= '9'
  }

  predicate AllDigits(s: string)
  {
    forall i | 0 <= i < |s| :: IsDigit(s[i])
  }

  function DigitValue(c: char): (d: nat)
    requires IsDigit(c)
    ensures d < 10
  {
    c as int - '0' as int
  }

  function DigitChar(d: nat): (c: char)
    requires d < 10
    ensures IsDigit(c) && DigitValue(c) == d
  {
    (('0' as int) + d) as char
  }

  /** The number a string of decimal digits denotes. */
  function DecimalValue(s: string): nat
    requires AllDigits(s)
    decreases |s|
  {
    if s == [] then 0 else 10 * DecimalValue(s[..|s| - 1]) + DigitValue(s[|s| - 1])
  }

  /** `n.to_string()` for an unsigned integer: its decimal digits without leading zeros. */
  function NatToDecimal(n: nat): (s: string)
    ensures |s| >= 1 && AllDigits(s)
    ensures s[0] == '0' ==> n == 0
    ensures DecimalValue(s) == n
    decreases n
  {
    if n < 10 then [DigitChar(n)]
    else
      var high := NatToDecimal(n / 10);
      var s := high + [DigitChar(n % 10)];
      assert s[..|s| - 1] == high;
      s
  }

  /** `i.to_string()` for a signed integer: a minus sign for negatives, then the digits of |i|. */
  function IntToDecimal(i: int): (s: string)
    ensures |s| >= 1
    ensures s[0] == '-' <==> i < 0
    ensures i < 0 ==> AllDigits(s[1..]) && DecimalValue(s[1..]) == -i
    ensures i >= 0 ==> AllDigits(s) && DecimalValue(s) == i
  {
    if i < 0 then
      var s := "-" + NatToDecimal(-i);
      assert s[1..] == NatToDecimal(-i);
      s
    else NatToDecimal(i)
  }

  /** `s.parse::<u16>()`: an optional `+`, then one or more ASCII digits whose value fits 16 bits. */
  function ParseU16(s: string): (r: Option<nat>)
    ensures r.Some? ==> r.value < 0x1_0000
    ensures r.Some? ==> exists k | 0 <= k <= 1 :: k <= |s| && |s[k..]| >= 1 && AllDigits(s[k..]) && r.value == DecimalValue(s[k..])
    ensures r.Some? <==> var k := if |s| > 0 && s[0] == '+' then 1 else 0;
                         |s[k..]| >= 1 && AllDigits(s[k..]) && DecimalValue(s[k..]) < 0x1_0000
  {
    var k := if |s| > 0 && s[0] == '+' then 1 else 0;
    var digits := s[k..];
    if |digits| > 0 && AllDigits(digits) && DecimalValue(digits) < 0x1_0000 then
      Some(DecimalValue(digits))
    else None
  }

  /** Leading zeros after a `+` are accepted, and so is the largest value. */
  lemma ParseU16Accepts()
    ensures ParseU16("+007") == Some(7)
    ensures ParseU16("65535") == Some(65535)
  {
    assert "+007"[1..] == "007";
    assert DecimalValue("007") == 7 by {
      assert "007"[..2] == "00" && "00"[..1] == "0" && "0"[..0] == "";
    }
    FiveDigits("65535");
  }

  /** An empty string, a lone `+`, a minus sign and a value past 16 bits are refused. */
  lemma ParseU16Refuses()
    ensures ParseU16("") == None && ParseU16("+") == None
    ensures ParseU16("-1") == None && ParseU16("65536") == None
  {
    assert !IsDigit("-1"[0]);
    FiveDigits("65536");
  }

  /** The value of five digits, place by place. */
  lemma FiveDigits(d: string)
    requires |d| == 5 && AllDigits(d)
    ensures DecimalValue(d) == 10000 * DigitValue(d[0]) + 1000 * DigitValue(d[1]) + 100 * DigitValue(d[2])
                               + 10 * DigitValue(d[3]) + DigitValue(d[4])
  {
    assert d[..4][..3] == d[..3] && d[..3][..2] == d[..2] && d[..2][..1] == d[..1] && d[..1][..0] == [];
    assert DecimalValue(d[..1]) == DigitValue(d[0]);
    assert DecimalValue(d[..2]) == 10 * DigitValue(d[0]) + DigitValue(d[1]);
    assert DecimalValue(d[..3]) == 10 * DecimalValue(d[..2]) + DigitValue(d[2]);
    assert DecimalValue(d[..4]) == 10 * DecimalValue(d[..3]) + DigitValue(d[3]);
  }

  /** Formatting then parsing a 16-bit number gives it back. */
  lemma ParseU16Decimal(n: nat)
    requires n < 0x1_0000
    ensures ParseU16(NatToDecimal(n)) == Some(n)
  {
    var s := NatToDecimal(n);
    assert s[0] != '+';
    assert s[0..] == s;
  }

  // ---------------------------------------------------------------------------
  // UTF-8

  /** The UTF-8 encoding of one Unicode scalar value. */
  function Utf8Char(c: char): (bs: seq<byte>)
    ensures 1 <= |bs| <= 4
    ensures c as int < 0x80 ==> bs == [c as int]
    ensures c as int >= 0x80 ==> forall k | 0 <= k < |bs| :: bs[k] >= 0x80
  {
    var n := c as int;
    if n < 0x80 then [n]
    else if n < 0x800 then [0xC0 + n / 0x40, 0x80 + n % 0x40]
    else if n < 0x1_0000 then [0xE0 + n / 0x1000, 0x80 + (n / 0x40) % 0x40, 0x80 + n % 0x40]
    else [0xF0 + n / 0x4_0000, 0x80 + (n / 0x1000) % 0x40, 0x80 + (n / 0x40) % 0x40, 0x80 + n % 0x40]
  }

  /** `s.as_bytes()`: the UTF-8 encoding of a string. */
  function Utf8(s: string): seq<byte>
    decreases |s|
  {
    if s == [] then [] else Utf8Char(s[0]) + Utf8(s[1..])
  }

  /** Encoding distributes over concatenation. */
  lemma {:induction false} Utf8Concat(a: string, b: string)
    ensures Utf8(a + b) == Utf8(a) + Utf8(b)
    decreases |a|
  {
    if a != [] {
      assert (a + b)[0] == a[0];
      assert (a + b)[1..] == a[1..] + b;
      Utf8Concat(a[1..], b);
    } else {
      assert a + b == b;
    }
  }

  /** An ASCII byte appears in the encoding exactly where its character appears in the text. */
  lemma {:induction false} Utf8AsciiByte(s: string, b: byte)
    requires b < 0x80
    ensures b in Utf8(s) <==> (b as char) in s
    decreases |s|
  {
    if s != [] {
      Utf8AsciiByte(s[1..], b);
      assert s == [s[0]] + s[1..];
      assert (b as char) in s <==> s[0] == b as char || (b as char) in s[1..];
      assert b in Utf8Char(s[0]) <==> s[0] == b as char;
    }
  }
}
