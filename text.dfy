/**
 * String helpers with the semantics of the Python built-ins the client uses:
 * `str.strip()`, `str.split(sep)`, `str.lower()`, `in` on strings,
 * `str.replace(a, b)` for one character, and `int(str)` / `str(int)`.
 */
module Text {
  import opened Wrappers

  /** The characters for which Python's `str.isspace()` holds. */
  predicate IsSpace(c: char) {
    || ('\t' <= c <= '\r')
    || ('\U{1C}' <= c <= '\U{1F}')
    || c == ' ' || c == '\U{85}' || c == '\U{A0}' || c == '\U{1680}'
    || ('\U{2000}' <= c <= '\U{200A}')
    || c == '\U{2028}' || c == '\U{2029}' || c == '\U{202F}' || c == '\U{205F}' || c == '\U{3000}'
  }

  /** True when `s` neither starts nor ends with whitespace. */
  predicate IsStripped(s: string) {
    s == [] || (!IsSpace(s[0]) && !IsSpace(s[|s| - 1]))
  }

  /** `s.lstrip()`: drop leading whitespace. */
  function TrimStart(s: string): (r: string)
    ensures |r| <= |s| && r == s[|s| - |r|..]
    ensures r == [] || !IsSpace(r[0])
  {
    if s != [] && IsSpace(s[0]) then TrimStart(s[1..]) else s
  }

  /** Everything `lstrip` drops is whitespace. */
  lemma {:induction false} TrimStartDrops(s: string)
    ensures forall i :: 0 <= i < |s| - |TrimStart(s)| ==> IsSpace(s[i])
  {
    if s != [] && IsSpace(s[0]) {
      TrimStartDrops(s[1..]);
      forall i | 1 <= i < |s| - |TrimStart(s)| ensures IsSpace(s[i]) {
        assert s[i] == s[1..][i - 1];
      }
    }
  }

  /** `s.rstrip()`: drop trailing whitespace. */
  function TrimEnd(s: string): (r: string)
    ensures |r| <= |s| && r == s[..|r|]
    ensures r == [] || !IsSpace(r[|r| - 1])
  {
    if s != [] && IsSpace(s[|s| - 1]) then TrimEnd(s[..|s| - 1]) else s
  }

  /** Everything `rstrip` drops is whitespace. */
  lemma {:induction false} TrimEndDrops(s: string)
    ensures forall i :: |TrimEnd(s)| <= i < |s| ==> IsSpace(s[i])
  {
    if s != [] && IsSpace(s[|s| - 1]) {
      TrimEndDrops(s[..|s| - 1]);
      forall i | |TrimEnd(s)| <= i < |s| - 1 ensures IsSpace(s[i]) {
        assert s[i] == s[..|s| - 1][i];
      }
    }
  }

  /**
   * `s.strip()`: `s` without its leading and trailing whitespace. What it keeps
   * is one slice of `s`, the one that starts where `lstrip` stops.
   */
  function Strip(s: string): (r: string)
    ensures IsStripped(r)
    ensures |r| <= |s|
    ensures var i := |s| - |TrimStart(s)|;
            i + |r| <= |s| && r == s[i..i + |r|]
  {
    var t := TrimStart(s);
    var r := TrimEnd(t);
    TrimmedInside(s, t, r);
    r
  }

  /** Everything `strip` drops, on either side of the slice it keeps, is whitespace. */
  lemma StripDrops(s: string)
    ensures var i := |s| - |TrimStart(s)|;
            && i + |Strip(s)| <= |s|
            && (forall k :: 0 <= k < i ==> IsSpace(s[k]))
            && (forall k :: i + |Strip(s)| <= k < |s| ==> IsSpace(s[k]))
  {
    var t := TrimStart(s);
    var r := TrimEnd(t);
    assert Strip(s) == r;
    TrimStartDrops(s);
    TrimEndDrops(t);
    TrimmedAfter(s, t, r);
  }

  /** A prefix of a suffix of `s` is a slice of `s`. */
  lemma TrimmedInside(s: string, t: string, r: string)
    requires |t| <= |s| && t == s[|s| - |t|..]
    requires |r| <= |t| && r == t[..|r|]
    ensures var i := |s| - |t|;
            i + |r| <= |s| && r == s[i..i + |r|]
            && (r != [] ==> r[0] == t[0])
  {
  }

  /** What follows that slice in `s` is what follows `r` in `t`. */
  lemma TrimmedAfter(s: string, t: string, r: string)
    requires |t| <= |s| && t == s[|s| - |t|..]
    requires |r| <= |t|
    requires forall k :: |r| <= k < |t| ==> IsSpace(t[k])
    ensures forall k :: |s| - |t| + |r| <= k < |s| ==> IsSpace(s[k])
  {
    var i := |s| - |t|;
    forall k | i + |r| <= k < |s| ensures IsSpace(s[k]) {
      assert s[k] == t[k - i];
    }
  }

  /** Stripping a string that has no whitespace at its ends changes nothing. */
  lemma StripOfStripped(s: string)
    requires IsStripped(s)
    ensures Strip(s) == s
  {
  }

  /** The index of the first occurrence of `c` in `s`. */
  function IndexOf(s: string, c: char): (i: nat)
    requires c in s
    ensures i < |s| && s[i] == c && c !in s[..i]
  {
    if s[0] == c then 0 else 1 + IndexOf(s[1..], c)
  }

  /** `sep.join(parts)` for a one-character separator. */
  function Join(parts: seq<string>, sep: char): string {
    if parts == [] then ""
    else if |parts| == 1 then parts[0]
    else parts[0] + [sep] + Join(parts[1..], sep)
  }

  /**
   * `s.split(sep)`: the pieces between occurrences of `sep`, empty pieces
   * included, so there is always at least one piece.
   */
  function Split(s: string, sep: char): (r: seq<string>)
    ensures |r| >= 1
    ensures forall i :: 0 <= i < |r| ==> sep !in r[i]
    ensures Join(r, sep) == s
    decreases |s|
  {
    if sep !in s then [s]
    else
      var i := IndexOf(s, sep);
      var rest := Split(s[i + 1..], sep);
      assert s == s[..i] + [sep] + s[i + 1..];
      [s[..i]] + rest
  }

  /** A separator that follows a separator-free prefix is found right after it. */
  lemma {:induction false} IndexOfAfter(a: string, c: char, b: string)
    requires c !in a
    ensures c in a + [c] + b && IndexOf(a + [c] + b, c) == |a|
  {
    var s := a + [c] + b;
    assert s[|a|] == c;
    if a != [] {
      assert s[1..] == a[1..] + [c] + b;
      IndexOfAfter(a[1..], c, b);
    }
  }

  /** Splitting a join of separator-free pieces gives the pieces back. */
  lemma {:induction false} SplitJoin(parts: seq<string>, sep: char)
    requires |parts| >= 1
    requires forall i :: 0 <= i < |parts| ==> sep !in parts[i]
    ensures Split(Join(parts, sep), sep) == parts
  {
    if |parts| > 1 {
      var tail := Join(parts[1..], sep);
      var s := parts[0] + [sep] + tail;
      IndexOfAfter(parts[0], sep, tail);
      assert s[..|parts[0]|] == parts[0];
      assert s[|parts[0]| + 1..] == tail;
      SplitJoin(parts[1..], sep);
    }
  }

  /** A slice holds no character the whole does not hold. */
  lemma NotInSlice(s: string, lo: nat, hi: nat, c: char)
    requires lo <= hi <= |s| && c !in s
    ensures c !in s[lo..hi]
  {
    forall k | 0 <= k < hi - lo ensures s[lo..hi][k] != c {
      assert s[lo..hi][k] == s[lo + k];
    }
  }

  /** The pieces of a join hold no character the joined string does not hold. */
  lemma {:induction false} JoinAvoids(parts: seq<string>, sep: char, c: char)
    requires c !in Join(parts, sep)
    ensures forall i :: 0 <= i < |parts| ==> c !in parts[i]
  {
    if |parts| > 1 {
      var j := Join(parts, sep);
      var tail := Join(parts[1..], sep);
      assert j == parts[0] + [sep] + tail;
      assert j[..|parts[0]|] == parts[0];
      assert j[|parts[0]| + 1..] == tail;
      NotInSlice(j, 0, |parts[0]|, c);
      NotInSlice(j, |parts[0]| + 1, |j|, c);
      JoinAvoids(parts[1..], sep, c);
      forall i | 1 <= i < |parts| ensures c !in parts[i] {
        assert parts[i] == parts[1..][i - 1];
      }
    }
  }

  /** The pieces of a split hold no character the string does not hold. */
  lemma SplitAvoids(s: string, sep: char, c: char)
    requires c !in s
    ensures forall i :: 0 <= i < |Split(s, sep)| ==> c !in Split(s, sep)[i]
  {
    JoinAvoids(Split(s, sep), sep, c);
  }

  /** `[p.strip() for p in parts if p.strip()]`: the stripped non-empty pieces, in order. */
  function StrippedParts(parts: seq<string>): (r: seq<string>)
    ensures |r| <= |parts|
    ensures forall i :: 0 <= i < |r| ==> r[i] != "" && IsStripped(r[i])
  {
    if parts == [] then []
    else (if Strip(parts[0]) != "" then [Strip(parts[0])] else []) + StrippedParts(parts[1..])
  }

  /** Each kept piece is a slice of some input piece, so it has no character that piece lacks. */
  lemma {:induction false} StrippedPartsAvoid(parts: seq<string>, c: char)
    requires forall i :: 0 <= i < |parts| ==> c !in parts[i]
    ensures forall i :: 0 <= i < |StrippedParts(parts)| ==> c !in StrippedParts(parts)[i]
  {
    if parts != [] {
      StrippedPartsAvoid(parts[1..], c);
      var p := parts[0];
      var i := |p| - |TrimStart(p)|;
      var head := if Strip(p) != "" then [Strip(p)] else [];
      var rest := StrippedParts(parts[1..]);
      NotInSlice(p, i, i + |Strip(p)|, c);
      assert StrippedParts(parts) == head + rest;
      forall j | 0 <= j < |head + rest| ensures c !in (head + rest)[j] {
        if j >= |head| {
          assert (head + rest)[j] == rest[j - |head|];
        }
      }
    }
  }

  /** Pieces that are already stripped and non-empty are kept unchanged. */
  lemma {:induction false} StrippedPartsOfClean(parts: seq<string>)
    requires forall i :: 0 <= i < |parts| ==> parts[i] != "" && IsStripped(parts[i])
    ensures StrippedParts(parts) == parts
  {
    if parts != [] {
      var p := parts[0];
      StripOfStripped(p);
      forall i | 0 <= i < |parts| - 1 ensures parts[1..][i] != "" && IsStripped(parts[1..][i]) {
        assert parts[1..][i] == parts[i + 1];
      }
      StrippedPartsOfClean(parts[1..]);
      assert StrippedParts(parts) == [p] + parts[1..];
    }
  }

  /** `c.lower()` for ASCII letters; every other character is unchanged. */
  function LowerChar(c: char): char {
    if 'A' <= c <= 'Z' then (c as int + 32) as char else c
  }

  /** `s.lower()` restricted to ASCII letters. */
  function Lower(s: string): (r: string)
    ensures |r| == |s|
    ensures forall i :: 0 <= i < |s| ==> r[i] == LowerChar(s[i])
  {
    if s == [] then [] else [LowerChar(s[0])] + Lower(s[1..])
  }

  /** Lower-casing is idempotent. */
  lemma LowerLower(s: string)
    ensures Lower(Lower(s)) == Lower(s)
  {
  }

  /** `q` occurs in `t` starting at index `i`. */
  predicate OccursAt(q: string, t: string, i: nat)
    requires i + |q| <= |t|
  {
    t[i..i + |q|] == q
  }

  /** Python's `q in t` for strings. The empty string occurs in every string. */
  predicate Contains(t: string, q: string) {
    exists i: nat | i + |q| <= |t| :: OccursAt(q, t, i)
  }

  /** The empty query is contained in every text. */
  lemma ContainsEmpty(t: string)
    ensures Contains(t, "")
  {
    assert OccursAt("", t, 0);
  }

  /** `s.replace(a, b)` for single characters. */
  function Replace(s: string, a: char, b: char): (r: string)
    ensures |r| == |s|
    ensures forall i :: 0 <= i < |s| ==> r[i] == (if s[i] == a then b else s[i])
  {
    if s == [] then [] else [if s[0] == a then b else s[0]] + Replace(s[1..], a, b)
  }

  /** Replacing a character that does not occur changes nothing. */
  lemma ReplaceAbsent(s: string, a: char, b: char)
    requires a !in s
    ensures Replace(s, a, b) == s
  {
  }

  /** After replacing `a` by another character, `a` no longer occurs. */
  lemma ReplaceRemoves(s: string, a: char, b: char)
    requires a != b
    ensures a !in Replace(s, a, b)
  {
    var r := Replace(s, a, b);
    forall k | 0 <= k < |r| ensures r[k] != a { }
  }

  /** A character that occurs in neither the string nor as the replacement stays absent. */
  lemma ReplaceKeepsOut(s: string, a: char, b: char, c: char)
    requires c !in s && c != b
    ensures c !in Replace(s, a, b)
  {
    var r := Replace(s, a, b);
    forall k | 0 <= k < |r| ensures r[k] != c {
      assert s[k] in s;
    }
  }

  /** Replacing a separator that no piece holds re-joins the pieces with the replacement. */
  lemma {:induction false} ReplaceJoin(parts: seq<string>, a: char, b: char)
    requires forall i :: 0 <= i < |parts| ==> a !in parts[i]
    ensures Replace(Join(parts, a), a, b) == Join(parts, b)
  {
    if |parts| == 1 {
      ReplaceAbsent(parts[0], a, b);
    } else if |parts| > 1 {
      var tail := Join(parts[1..], a);
      ReplaceJoin(parts[1..], a, b);
      ReplaceAbsent(parts[0], a, b);
      ReplaceAppend(parts[0] + [a], tail, a, b);
      ReplaceAppend(parts[0], [a], a, b);
      assert Replace([a], a, b) == [b];
      assert Join(parts, a) == parts[0] + [a] + tail;
      assert Join(parts, b) == parts[0] + [b] + Join(parts[1..], b);
    }
  }

  /** Replacement works character by character. */
  lemma ReplaceAppend(s: string, t: string, a: char, b: char)
    ensures Replace(s + t, a, b) == Replace(s, a, b) + Replace(t, a, b)
  {
    var l := Replace(s + t, a, b);
    var r := Replace(s, a, b) + Replace(t, a, b);
    assert |l| == |r|;
    forall i | 0 <= i < |l| ensures l[i] == r[i] {
      if i < |s| { assert (s + t)[i] == s[i]; } else { assert (s + t)[i] == t[i - |s|]; }
    }
  }

  /** A decimal digit character. */
  predicate IsDigit(c: char) {
    '0' <= c <= '9'
  }

  /** The decimal value of a string of digits, most significant first. */
  function DigitsValue(s: string): int
    requires forall i :: 0 <= i < |s| ==> IsDigit(s[i])
  {
    if s == [] then 0 else DigitsValue(s[..|s| - 1]) * 10 + (s[|s| - 1] as int - '0' as int)
  }

  /** `str(n)` for a natural number: its decimal digits without leading zeros. */
  function NatToString(n: nat): (r: string)
    ensures r != [] && forall i :: 0 <= i < |r| ==> IsDigit(r[i])
  {
    if n < 10 then [('0' as int + n) as char]
    else NatToString(n / 10) + [('0' as int + n % 10) as char]
  }

  /** `str(n)` for any integer. */
  function IntToString(n: int): string {
    if n < 0 then "-" + NatToString(-n) else NatToString(n)
  }

  /** True when `s` is a non-empty run of ASCII digits. */
  predicate AllDigits(s: string) {
    s != [] && forall i :: 0 <= i < |s| ==> IsDigit(s[i])
  }

  /** `int(t)` once surrounding whitespace is gone: an optional sign, then digits. */
  function ParseSigned(t: string): Option<int> {
    if t != [] && (t[0] == '-' || t[0] == '+') then
      if AllDigits(t[1..]) then Some(if t[0] == '-' then -DigitsValue(t[1..]) else DigitsValue(t[1..]))
      else None
    else if AllDigits(t) then Some(DigitsValue(t))
    else None
  }

  /**
   * `int(s)` for the decimal forms: optional surrounding whitespace, an
   * optional sign and at least one ASCII digit. Anything else raises
   * ValueError in Python, here `None`.
   */
  function ParseInt(s: string): Option<int> {
    ParseSigned(Strip(s))
  }

  lemma {:induction false} DigitsOfNat(n: nat)
    ensures DigitsValue(NatToString(n)) == n
  {
    if n >= 10 {
      var s := NatToString(n);
      assert s[..|s| - 1] == NatToString(n / 10);
      DigitsOfNat(n / 10);
    }
  }

  /** Printed digits read back as a signed number. */
  lemma SignedOfDigits(d: string, n: int)
    requires AllDigits(d) && DigitsValue(d) == n
    ensures ParseSigned(d) == Some(n)
    ensures ParseSigned("-" + d) == Some(-n)
  {
    assert ("-" + d)[1..] == d;
  }

  /** `int(str(n)) == n`: parsing undoes printing. */
  lemma ParseIntToString(n: int)
    ensures ParseInt(IntToString(n)) == Some(n)
  {
    var m: nat := if n < 0 then -n else n;
    var d := NatToString(m);
    DigitsOfNat(m);
    SignedOfDigits(d, m);
    var s := IntToString(n);
    assert s[|s| - 1] == d[|d| - 1];
    assert IsStripped(s);
    StripOfStripped(s);
  }
}
