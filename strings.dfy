/**
 * The handful of JavaScript string operations the extension relies on, written out over
 * `seq<char>`: String.prototype.trim, an ASCII toLowerCase, includes, split on one character,
 * join, template-string formatting of a non-negative integer and the global parseInt.
 */
module Strings {
  import opened Wrappers

  /** The ECMAScript WhiteSpace and LineTerminator code points: what trim() removes. */
  predicate IsSpace(ch: char) {
    || ch == ' ' || ch == '\t' || ch == '\n' || ch == '\r'
    || ch == '\U{000B}' || ch == '\U{000C}' || ch == '\U{00A0}' || ch == '\U{1680}'
    || ('\U{2000}' <= ch <= '\U{200A}')
    || ch == '\U{2028}' || ch == '\U{2029}' || ch == '\U{202F}' || ch == '\U{205F}'
    || ch == '\U{3000}' || ch == '\U{FEFF}'
  }

  /** Drops the leading white space: the result is a suffix of `s` and starts with a non-space. */
  function TrimStart(s: string): (r: string)
    ensures |r| <= |s| && r == s[|s| - |r|..]
    ensures |r| == 0 || !IsSpace(r[0])
  {
    if s != [] && IsSpace(s[0]) then TrimStart(s[1..]) else s
  }

  /** What TrimStart drops is white space. */
  lemma {:induction false} TrimStartDropsSpace(s: string)
    ensures forall i :: 0 <= i < |s| - |TrimStart(s)| ==> IsSpace(s[i])
    decreases |s|
  {
    if s != [] && IsSpace(s[0]) {
      TrimStartDropsSpace(s[1..]);
    }
  }

  /** Drops the trailing white space: the result is a prefix of `s` and ends with a non-space. */
  function TrimEnd(s: string): (r: string)
    ensures |r| <= |s| && r == s[..|r|]
    ensures |r| == 0 || !IsSpace(r[|r| - 1])
  {
    if s != [] && IsSpace(s[|s| - 1]) then TrimEnd(s[..|s| - 1]) else s
  }

  /** What TrimEnd drops is white space. */
  lemma {:induction false} TrimEndDropsSpace(s: string)
    ensures forall i :: |TrimEnd(s)| <= i < |s| ==> IsSpace(s[i])
    decreases |s|
  {
    if s != [] && IsSpace(s[|s| - 1]) {
      TrimEndDropsSpace(s[..|s| - 1]);
    }
  }

  /** String.prototype.trim. */
  function Trim(s: string): (r: string)
    ensures |r| <= |s|
    ensures |r| == 0 || (!IsSpace(r[0]) && !IsSpace(r[|r| - 1]))
  {
    TrimEnd(TrimStart(s))
  }

  /** A string that trim() leaves as it is. */
  predicate IsTrimmed(s: string) {
    |s| == 0 || (!IsSpace(s[0]) && !IsSpace(s[|s| - 1]))
  }

  lemma TrimOfTrimmed(s: string)
    requires IsTrimmed(s)
    ensures Trim(s) == s
  {
  }

  /** trim() only removes characters: everything in its result occurs in its input. */
  lemma TrimChars(s: string)
    ensures forall i :: 0 <= i < |Trim(s)| ==> Trim(s)[i] in s
  {
    var t := TrimStart(s);
    var r := TrimEnd(t);
    assert r == Trim(s);
    var d := |s| - |t|;
    forall i | 0 <= i < |r| ensures r[i] in s {
      assert r[i] == t[i];
      assert t[i] == s[d + i];
    }
  }

  /** String.prototype.toLowerCase on ASCII letters; every other character is kept. */
  function LowerChar(ch: char): (r: char)
    ensures IsSpace(r) <==> IsSpace(ch)
    ensures !('A' <= r <= 'Z')
    ensures r == ch || 'A' <= ch <= 'Z'
  {
    if 'A' <= ch <= 'Z' then (ch as int + 32) as char else ch
  }

  /**
   * Lower-casing maps every character by LowerChar, gives a lower-case string, and leaves a
   * lower-case string as it is.
   */
  function Lower(s: string): (r: string)
    ensures |r| == |s|
    ensures IsLower(r)
    ensures IsLower(s) ==> r == s
  {
    seq(|s|, i requires 0 <= i < |s| => LowerChar(s[i]))
  }

  predicate IsLower(s: string) {
    forall i :: 0 <= i < |s| ==> !('A' <= s[i] <= 'Z')
  }

  /** Lower-casing keeps a trimmed string trimmed. */
  lemma LowerKeepsTrimmed(s: string)
    requires IsTrimmed(s)
    ensures IsTrimmed(Lower(s))
  {
  }

  predicate StartsWith(s: string, prefix: string) {
    |prefix| <= |s| && s[..|prefix|] == prefix
  }

  lemma PrefixStarts(prefix: string, rest: string)
    ensures StartsWith(prefix + rest, prefix)
  {
    assert (prefix + rest)[..|prefix|] == prefix;
  }

  /** String.prototype.includes: `t` occurs somewhere in `s`. */
  predicate Contains(s: string, t: string)
    decreases |s|
  {
    StartsWith(s, t) || (s != [] && Contains(s[1..], t))
  }

  /** `t` occurs in `s` at position `i`. */
  predicate OccursAt(s: string, t: string, i: int) {
    0 <= i <= |s| - |t| && s[i..i + |t|] == t
  }

  /** Contains as the existence of an occurrence. */
  lemma {:induction false} ContainsAt(s: string, t: string)
    ensures Contains(s, t) <==> exists i :: OccursAt(s, t, i)
    decreases |s|
  {
    if s != [] {
      ContainsAt(s[1..], t);
      if StartsWith(s, t) {
        assert OccursAt(s, t, 0);
      }
      if exists i :: OccursAt(s, t, i) {
        var i :| OccursAt(s, t, i);
        if i > 0 {
          assert s[1..][i - 1..i - 1 + |t|] == s[i..i + |t|];
          assert OccursAt(s[1..], t, i - 1);
        }
      }
      if Contains(s[1..], t) {
        var i :| OccursAt(s[1..], t, i);
        assert s[i + 1..i + 1 + |t|] == s[1..][i..i + |t|];
        assert OccursAt(s, t, i + 1);
      }
    } else {
      if exists i :: OccursAt(s, t, i) {
        var i :| OccursAt(s, t, i);
        assert t == [];
        assert StartsWith(s, t);
      }
      if Contains(s, t) {
        assert OccursAt(s, t, 0);
      }
    }
  }

  /** A string contains every one of its infixes. */
  lemma ContainsInfix(a: string, t: string, b: string)
    ensures Contains(a + t + b, t)
  {
    var s := a + t + b;
    assert s[|a|..|a| + |t|] == t;
    assert OccursAt(s, t, |a|);
    ContainsAt(s, t);
  }

  /** An occurrence stays an occurrence inside a longer string. */
  lemma ContainsExtend(s: string, t: string, a: string, b: string)
    requires Contains(s, t)
    ensures Contains(a + s + b, t)
  {
    ContainsAt(s, t);
    var i :| OccursAt(s, t, i);
    assert (a + s + b)[|a| + i..|a| + i + |t|] == s[i..i + |t|];
    assert OccursAt(a + s + b, t, |a| + i);
    ContainsAt(a + s + b, t);
  }

  /** Every part occurs in the joined string. */
  lemma {:induction false} JoinContains(parts: seq<string>, sep: string, i: nat)
    requires i < |parts|
    ensures Contains(Join(parts, sep), parts[i])
    decreases |parts|
  {
    if i == 0 {
      JoinHead(parts, sep);
    } else {
      JoinContains(parts[1..], sep, i - 1);
      JoinTail(parts, sep);
      ContainsExtend(Join(parts[1..], sep), parts[i], parts[0] + sep, []);
    }
  }

  lemma JoinHead(parts: seq<string>, sep: string)
    requires |parts| >= 1
    ensures Contains(Join(parts, sep), parts[0])
  {
    var rest := if |parts| == 1 then [] else sep + Join(parts[1..], sep);
    assert Join(parts, sep) == [] + parts[0] + rest;
    ContainsInfix([], parts[0], rest);
  }

  lemma JoinTail(parts: seq<string>, sep: string)
    requires |parts| >= 2
    ensures Join(parts, sep) == (parts[0] + sep) + Join(parts[1..], sep) + []
  {
  }

  lemma ContainsChar(s: string, t: string, ch: char)
    requires Contains(s, t) && ch in t
    ensures ch in s
  {
    ContainsAt(s, t);
    var i :| OccursAt(s, t, i);
    var k :| 0 <= k < |t| && t[k] == ch;
    assert s[i + k] == s[i..i + |t|][k];
  }

  /**
   * String.prototype.split where every character of `seps` separates (a separator that is
   * a single character, or a character class).
   */
  function Split(s: string, seps: set<char>): (r: seq<string>)
    ensures |r| >= 1
    ensures forall k, ch :: 0 <= k < |r| && ch in r[k] ==> ch !in seps
  {
    if s == [] then [""]
    else
      var rest := Split(s[1..], seps);
      if s[0] in seps then [""] + rest else [[s[0]] + rest[0]] + rest[1..]
  }

  /** Array.prototype.join. */
  function Join(parts: seq<string>, sep: string): (r: string)
  {
    if |parts| == 0 then ""
    else if |parts| == 1 then parts[0]
    else parts[0] + sep + Join(parts[1..], sep)
  }

  /** No character of `seps` occurs in `s`. */
  predicate Avoids(s: string, seps: set<char>) {
    forall i :: 0 <= i < |s| ==> s[i] !in seps
  }

  /** trim() keeps a separator-free string separator-free. */
  lemma TrimAvoids(s: string, seps: set<char>)
    requires Avoids(s, seps)
    ensures Avoids(Trim(s), seps)
  {
    TrimChars(s);
  }

  /** Lower-casing keeps a string free of separators that are not lower-case letters. */
  lemma LowerAvoids(s: string, seps: set<char>)
    requires Avoids(s, seps)
    requires forall ch :: ch in seps ==> !('a' <= ch <= 'z')
    ensures Avoids(Lower(s), seps)
  {
    forall i | 0 <= i < |s| ensures Lower(s)[i] !in seps {
      if 'A' <= s[i] <= 'Z' {
        assert 'a' <= Lower(s)[i] <= 'z';
      }
    }
  }

  /** Splitting a separator-free prefix off: it becomes part of the first piece. */
  lemma {:induction false} SplitPrefix(a: string, s: string, seps: set<char>)
    requires Avoids(a, seps)
    ensures Split(a + s, seps) == [a + Split(s, seps)[0]] + Split(s, seps)[1..]
  {
    var r := Split(s, seps);
    if a != [] {
      assert (a + s)[1..] == a[1..] + s;
      SplitPrefix(a[1..], s, seps);
      assert [a[0]] + (a[1..] + r[0]) == a + r[0];
    } else {
      assert a + s == s;
      assert a + r[0] == r[0];
      assert [r[0]] + r[1..] == r;
    }
  }

  /** Splitting undoes joining with a separator, as long as no part contains a separator. */
  lemma {:induction false} SplitJoin(parts: seq<string>, sep: char, seps: set<char>)
    requires |parts| >= 1 && sep in seps
    requires forall k :: 0 <= k < |parts| ==> Avoids(parts[k], seps)
    ensures Split(Join(parts, [sep]), seps) == parts
  {
    if |parts| == 1 {
      SplitPrefix(parts[0], "", seps);
      assert parts[0] + "" == parts[0];
    } else {
      var tail := Join(parts[1..], [sep]);
      SplitJoin(parts[1..], sep, seps);
      assert Join(parts, [sep]) == parts[0] + ([sep] + tail);
      SplitPrefix(parts[0], [sep] + tail, seps);
      assert ([sep] + tail)[1..] == tail;
      assert parts[0] + "" == parts[0];
    }
  }

  /**
   * The pieces written back with the k-th gap between piece k and piece k + 1: the inverse of
   * Split when every gap is a separator and no piece holds one.
   */
  function Interleave(parts: seq<string>, gaps: seq<char>): string
    requires |parts| == |gaps| + 1
  {
    if gaps == [] then parts[0] else parts[0] + [gaps[0]] + Interleave(parts[1..], gaps[1..])
  }

  /** The separator characters of `s`, in order: the gaps between the pieces Split gives. */
  function SplitGaps(s: string, seps: set<char>): (g: seq<char>)
    ensures forall i :: 0 <= i < |g| ==> g[i] in seps
  {
    if s == [] then [] else (if s[0] in seps then [s[0]] else []) + SplitGaps(s[1..], seps)
  }

  /** Text in front of the first piece of an interleaving joins that piece. */
  lemma InterleaveHead(a: string, parts: seq<string>, gaps: seq<char>)
    requires |parts| == |gaps| + 1
    ensures Interleave([a + parts[0]] + parts[1..], gaps) == a + Interleave(parts, gaps)
  {
    var ps := [a + parts[0]] + parts[1..];
    assert ps[1..] == parts[1..];
  }

  /** Every string is its Split pieces written back with its separators as the gaps. */
  lemma {:induction false} SplitRebuilds(s: string, seps: set<char>)
    ensures |Split(s, seps)| == |SplitGaps(s, seps)| + 1
    ensures Interleave(Split(s, seps), SplitGaps(s, seps)) == s
  {
    if s != [] {
      var rest, g := Split(s[1..], seps), SplitGaps(s[1..], seps);
      SplitRebuilds(s[1..], seps);
      if s[0] in seps {
        var ps := [""] + rest;
        assert ps[1..] == rest && [s[0]] + g == SplitGaps(s, seps);
        assert Interleave(ps, [s[0]] + g) == "" + [s[0]] + Interleave(rest, g);
        assert [s[0]] + s[1..] == s;
      } else {
        InterleaveHead([s[0]], rest, g);
        assert [] + g == g;
        assert [s[0]] + s[1..] == s;
      }
    }
  }

  /**
   * Split undoes any interleaving of separator-free pieces with separator characters, whichever
   * separator each gap is. With SplitRebuilds this fixes Split on every string: its pieces are
   * the only separator-free pieces that give the string back.
   */
  lemma {:induction false} SplitInterleave(parts: seq<string>, gaps: seq<char>, seps: set<char>)
    requires |parts| == |gaps| + 1
    requires forall k :: 0 <= k < |gaps| ==> gaps[k] in seps
    requires forall k :: 0 <= k < |parts| ==> Avoids(parts[k], seps)
    ensures Split(Interleave(parts, gaps), seps) == parts
  {
    if gaps == [] {
      SplitPrefix(parts[0], "", seps);
      assert parts[0] + "" == parts[0];
      assert [parts[0]] == parts;
    } else {
      var tail := Interleave(parts[1..], gaps[1..]);
      SplitInterleave(parts[1..], gaps[1..], seps);
      assert Interleave(parts, gaps) == parts[0] + ([gaps[0]] + tail);
      SplitPrefix(parts[0], [gaps[0]] + tail, seps);
      assert ([gaps[0]] + tail)[1..] == tail;
      assert parts[0] + "" == parts[0];
      assert [parts[0]] + parts[1..] == parts;
    }
  }

  // ---------------------------------------------------------------------------
  // Decimal formatting (template strings) and parseInt
  // ---------------------------------------------------------------------------

  function DigitChar(d: nat): char
    requires d < 10
  {
    "0123456789"[d]
  }

  /** `${n}` for a non-negative integer. */
  function NatToString(n: nat): (r: string)
    ensures |r| >= 1
    decreases n
  {
    if n < 10 then [DigitChar(n)] else NatToString(n / 10) + [DigitChar(n % 10)]
  }

  /** The value of `ch` as a digit in base `radix` (10 or 16), if it is one. */
  function DigitValue(ch: char, radix: nat): (r: Option<nat>)
    ensures r.Some? ==> r.value < radix
  {
    if '0' <= ch <= '9' && (ch as int - '0' as int) < radix then Some(ch as int - '0' as int)
    else if radix == 16 && 'a' <= ch <= 'f' then Some(ch as int - 'a' as int + 10)
    else if radix == 16 && 'A' <= ch <= 'F' then Some(ch as int - 'A' as int + 10)
    else None
  }

  predicate AllDigits(s: string, radix: nat) {
    forall i :: 0 <= i < |s| ==> DigitValue(s[i], radix).Some?
  }

  /** The longest prefix of `s` made of digits. */
  function LeadingDigits(s: string, radix: nat): (r: string)
    ensures |r| <= |s| && r == s[..|r|] && AllDigits(r, radix)
    ensures |r| < |s| ==> DigitValue(s[|r|], radix).None?
  {
    if s != [] && DigitValue(s[0], radix).Some? then [s[0]] + LeadingDigits(s[1..], radix) else ""
  }

  /** The value of a digit string, most significant digit first. */
  function DigitsValue(s: string, radix: nat): nat
    requires AllDigits(s, radix)
  {
    if s == [] then 0
    else DigitsValue(s[..|s| - 1], radix) * radix + DigitValue(s[|s| - 1], radix).value
  }

  /**
   * The global parseInt with no radix: leading white space, an optional sign, an optional
   * 0x prefix selecting base 16, then the longest run of digits; None stands for NaN.
   */
  function ParseLeadingInt(s: string): (r: Option<int>)
  {
    var t := TrimStart(s);
    var negative := t != [] && t[0] == '-';
    var unsigned := if t != [] && (t[0] == '-' || t[0] == '+') then t[1..] else t;
    match ParseMagnitude(unsigned)
    case None => None
    case Some(value) => Some(if negative then -(value as int) else value as int)
  }

  /** The unsigned part of parseInt: an optional 0x prefix, then the longest run of digits. */
  function ParseMagnitude(u: string): (r: Option<nat>)
  {
    var hex := |u| >= 2 && u[0] == '0' && (u[1] == 'x' || u[1] == 'X');
    var radix := if hex then 16 else 10;
    var body := if hex then u[2..] else u;
    var digits := LeadingDigits(body, radix);
    if digits == [] then None else Some(DigitsValue(digits, radix))
  }

  lemma {:induction false} NatToStringDigits(n: nat)
    ensures AllDigits(NatToString(n), 10)
    ensures DigitsValue(NatToString(n), 10) == n
    ensures NatToString(n)[0] == '0' ==> |NatToString(n)| == 1
    decreases n
  {
    if n >= 10 {
      NatToStringDigits(n / 10);
      var s := NatToString(n / 10);
      var full := s + [DigitChar(n % 10)];
      assert full[..|full| - 1] == s;
      assert full[0] == s[0];
    }
  }

  lemma {:induction false} LeadingDigitsOfDigits(s: string, radix: nat)
    requires AllDigits(s, radix)
    ensures LeadingDigits(s, radix) == s
  {
    if s != [] {
      LeadingDigitsOfDigits(s[1..], radix);
    }
  }

  lemma TrimStartOfNonSpace(s: string)
    requires s != [] && !IsSpace(s[0])
    ensures TrimStart(s) == s
  {
  }

  /** parseInt of a string that starts with a digit: its sign and leading white space are absent. */
  lemma ParseUnsigned(s: string)
    requires s != [] && '0' <= s[0] <= '9'
    ensures ParseLeadingInt(s) == if ParseMagnitude(s).Some? then Some(ParseMagnitude(s).value) else None
  {
    assert !IsSpace(s[0]);
    TrimStartOfNonSpace(s);
  }

  /** parseInt of a decimal digit string without a superfluous leading zero. */
  lemma ParseDecimal(s: string)
    requires s != [] && AllDigits(s, 10)
    requires |s| >= 2 ==> s[0] != '0'
    ensures ParseLeadingInt(s) == Some(DigitsValue(s, 10))
  {
    assert DigitValue(s[0], 10).Some?;
    ParseUnsigned(s);
    LeadingDigitsOfDigits(s, 10);
    assert ParseMagnitude(s) == Some(DigitsValue(s, 10));
  }

  /** parseInt reads back what `${n}` wrote. */
  lemma ParseNatToString(n: nat)
    ensures ParseLeadingInt(NatToString(n)) == Some(n)
  {
    NatToStringDigits(n);
    ParseDecimal(NatToString(n));
  }

  /** `${n}` consists of digits only, so it avoids any set of non-digit separators. */
  lemma NatToStringAvoids(n: nat, seps: set<char>)
    requires forall ch :: ch in seps ==> !('0' <= ch <= '9')
    ensures Avoids(NatToString(n), seps)
  {
    NatToStringDigits(n);
    forall i | 0 <= i < |NatToString(n)| ensures NatToString(n)[i] !in seps {
      assert DigitValue(NatToString(n)[i], 10).Some?;
    }
  }
}
