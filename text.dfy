/** The parts of Python's `str` and `int` that the modelled code relies on:
    whitespace stripping, substring search, `split`, `int(s, base)` and the
    decimal / hexadecimal / zero-padded renderings it must read back. */
module Text {
  import opened Errors

  // ---------------------------------------------------------------------
  // Whitespace (str.isspace, str.strip)
  // ---------------------------------------------------------------------

  /** Python's `str.isspace()` for a single character. */
  predicate IsSpace(c: char) {
    || c == ' '
    || ('\U{9}' <= c <= '\U{D}')      // \t \n \v \f \r
    || ('\U{1C}' <= c <= '\U{1F}')    // file, group, record and unit separators
    || c == '\U{85}' || c == '\U{A0}' || c == '\U{1680}'
    || ('\U{2000}' <= c <= '\U{200A}')
    || c == '\U{2028}' || c == '\U{2029}' || c == '\U{202F}'
    || c == '\U{205F}' || c == '\U{3000}'
  }

  predicate AllSpace(s: string) {
    forall i :: 0 <= i < |s| ==> IsSpace(s[i])
  }

  predicate NoSpace(s: string) {
    forall i :: 0 <= i < |s| ==> !IsSpace(s[i])
  }

  /** `s.lstrip()`: drops the leading whitespace and nothing else. */
  function StripLeft(s: string): (r: string)
    ensures |r| <= |s| && r == s[|s| - |r|..]
    ensures forall i :: 0 <= i < |s| - |r| ==> IsSpace(s[i])
    ensures r == [] || !IsSpace(r[0])
  {
    if s != [] && IsSpace(s[0]) then
      var t := s[1..];
      var r := StripLeft(t);
      assert r == s[|s| - |r|..] by {
        assert t[|t| - |r|..] == s[|s| - |r|..];
      }
      assert forall i :: 0 <= i < |s| - |r| ==> IsSpace(s[i]) by {
        forall i | 0 <= i < |s| - |r| ensures IsSpace(s[i]) {
          if i > 0 { assert s[i] == t[i - 1]; }
        }
      }
      r
    else s
  }

  /** `s.rstrip()`: drops the trailing whitespace and nothing else. */
  function StripRight(s: string): (r: string)
    ensures |r| <= |s| && r == s[..|r|]
    ensures forall i :: |r| <= i < |s| ==> IsSpace(s[i])
    ensures r == [] || !IsSpace(r[|r| - 1])
  {
    if s != [] && IsSpace(s[|s| - 1]) then
      var t := s[..|s| - 1];
      var r := StripRight(t);
      assert r == s[..|r|] by {
        assert t[..|r|] == s[..|r|];
      }
      assert forall i :: |r| <= i < |s| ==> IsSpace(s[i]) by {
        forall i | |r| <= i < |s| ensures IsSpace(s[i]) {
          if i < |s| - 1 { assert s[i] == t[i]; }
        }
      }
      r
    else s
  }

  /** `s.strip()`. */
  function Strip(s: string): (r: string)
    ensures |r| <= |s|
    ensures r == [] || (!IsSpace(r[0]) && !IsSpace(r[|r| - 1]))
  {
    StripRight(StripLeft(s))
  }

  lemma {:induction false} StripLeftSpaces(a: string, t: string)
    requires AllSpace(a)
    requires t == [] || !IsSpace(t[0])
    ensures StripLeft(a + t) == t
  {
    if a == [] {
      assert a + t == t;
    } else {
      assert (a + t)[1..] == a[1..] + t;
      StripLeftSpaces(a[1..], t);
    }
  }

  lemma {:induction false} StripRightSpaces(t: string, b: string)
    requires AllSpace(b)
    requires t == [] || !IsSpace(t[|t| - 1])
    ensures StripRight(t + b) == t
  {
    if b == [] {
      assert t + b == t;
    } else {
      assert (t + b)[..|t + b| - 1] == t + b[..|b| - 1];
      StripRightSpaces(t, b[..|b| - 1]);
    }
  }

  /** Stripping recovers the core of any string padded with whitespace. */
  /** Stripping leaves nothing exactly when the string is all whitespace. */
  lemma StripBlank(s: string)
    ensures Strip(s) == [] <==> AllSpace(s)
  {
    if AllSpace(s) {
      StripLeftSpaces(s, []);
      assert s + [] == s;
    }
    var u := StripLeft(s);
    if Strip(s) == [] {
      assert u == [];
    }
  }

  lemma StripSurrounded(a: string, core: string, b: string)
    requires AllSpace(a) && AllSpace(b)
    requires core == [] || (!IsSpace(core[0]) && !IsSpace(core[|core| - 1]))
    ensures Strip(a + core + b) == core
  {
    if core == [] {
      assert a + core + b == a + b;
      StripLeftSpaces(a + b, []);
      assert a + b + [] == a + b;
    } else {
      assert a + core + b == a + (core + b);
      StripLeftSpaces(a, core + b);
      StripRightSpaces(core, b);
    }
  }

  // ---------------------------------------------------------------------
  // Substring search (`in`, str.find) and str.split
  // ---------------------------------------------------------------------

  predicate OccursAt(s: string, t: string, i: int) {
    0 <= i && i + |t| <= |s| && s[i..i + |t|] == t
  }

  /** The leftmost occurrence of `t` in `s` at or after `from`. */
  function FindFrom(s: string, t: string, from: nat): (r: Option<nat>)
    decreases |s| - from
    ensures r.Some? ==> from <= r.value && OccursAt(s, t, r.value)
    ensures r.Some? ==> forall j :: from <= j < r.value ==> !OccursAt(s, t, j)
    ensures r.None? ==> forall j :: from <= j ==> !OccursAt(s, t, j)
  {
    if from + |t| > |s| then None
    else if s[from..from + |t|] == t then Some(from)
    else FindFrom(s, t, from + 1)
  }

  /** `s.find(t)`, as an option. */
  function Find(s: string, t: string): Option<nat> {
    FindFrom(s, t, 0)
  }

  /** Python's `t in s` for strings. */
  predicate Contains(s: string, t: string) {
    Find(s, t).Some?
  }

  lemma ContainsIff(s: string, t: string)
    ensures Contains(s, t) <==> exists i :: OccursAt(s, t, i)
  {
  }

  /** A string none of whose characters is `t[0]` cannot contain `t`. */
  lemma NotContainsByFirstChar(s: string, t: string)
    requires t != []
    requires forall i :: 0 <= i < |s| ==> s[i] != t[0]
    ensures !Contains(s, t)
  {
    forall j | 0 <= j ensures !OccursAt(s, t, j) {
      if j + |t| <= |s| {
        assert s[j..j + |t|][0] == s[j];
      }
    }
  }

  /** A string lacking some character of `t` cannot contain `t`. */
  lemma NotContainsByChar(s: string, t: string, k: nat)
    requires k < |t|
    requires forall i :: 0 <= i < |s| ==> s[i] != t[k]
    ensures !Contains(s, t)
  {
    forall j | 0 <= j ensures !OccursAt(s, t, j) {
      if j + |t| <= |s| {
        assert s[j..j + |t|][k] == s[j + k];
      }
    }
  }

  /** `s.split(sep)[-1]`: the text after the last of the non-overlapping
      occurrences of `sep` that a left-to-right scan finds. */
  function LastPiece(s: string, sep: string): (r: string)
    requires sep != []
    decreases |s|
    ensures |r| <= |s| && r == s[|s| - |r|..]
    ensures !Contains(r, sep)
    ensures !Contains(s, sep) ==> r == s
  {
    match Find(s, sep)
    case None => s
    case Some(i) => LastPiece(s[i + |sep|..], sep)
  }

  /** When `t` starts the string, a scan for it stops right there. */
  lemma FindAtStart(t: string, rest: string)
    ensures Find(t + rest, t) == Some(0)
  {
    assert (t + rest)[0..|t|] == t;
  }

  /** The first occurrence of `t` in `p + t + rest` is the visible one when
      the last character of `t` occurs nowhere in `p` nor earlier in `t`. */
  lemma FindAfterPrefix(p: string, t: string, rest: string)
    requires t != []
    requires forall i :: 0 <= i < |p| ==> p[i] != t[|t| - 1]
    requires forall i :: 0 <= i < |t| - 1 ==> t[i] != t[|t| - 1]
    ensures Find(p + t + rest, t) == Some(|p|)
  {
    var s := p + t + rest;
    assert OccursAt(s, t, |p|) by {
      assert s[|p|..|p| + |t|] == t;
    }
    forall j | 0 <= j < |p| ensures !OccursAt(s, t, j) {
      var e := j + |t| - 1;
      if e < |s| {
        assert s[j..j + |t|][|t| - 1] == s[e];
        if e < |p| {
          assert s[e] == p[e];
        } else {
          assert s[e] == t[e - |p|];
        }
      }
    }
  }

  /** The piece after the last separator of `p + t + rest` is `rest` when
      `t` first occurs right after `p` and `rest` does not contain it. */
  lemma LastPieceAfterPrefix(p: string, t: string, rest: string)
    requires t != []
    requires forall i :: 0 <= i < |p| ==> p[i] != t[|t| - 1]
    requires forall i :: 0 <= i < |t| - 1 ==> t[i] != t[|t| - 1]
    requires !Contains(rest, t)
    ensures LastPiece(p + t + rest, t) == rest
  {
    FindAfterPrefix(p, t, rest);
    assert (p + t + rest)[|p| + |t|..] == rest;
  }

  /** `s.split(c)` for a one-character separator. */
  function SplitChar(s: string, c: char): (parts: seq<string>)
    decreases |s|
    ensures |parts| >= 1
    ensures forall k :: 0 <= k < |parts| ==> c !in parts[k]
  {
    match Find(s, [c])
    case None =>
      assert c !in s by {
        forall i | 0 <= i < |s| ensures s[i] != c {
          assert !OccursAt(s, [c], i);
          assert s[i..i + 1] == [s[i]];
        }
      }
      [s]
    case Some(i) =>
      assert c !in s[..i] by {
        forall j | 0 <= j < i ensures s[j] != c {
          assert !OccursAt(s, [c], j);
          assert s[j..j + 1] == [s[j]];
        }
      }
      [s[..i]] + SplitChar(s[i + 1..], c)
  }

  /** `c.join(parts)`. */
  function JoinChar(parts: seq<string>, c: char): string
    requires |parts| >= 1
  {
    if |parts| == 1 then parts[0] else parts[0] + [c] + JoinChar(parts[1..], c)
  }

  /** Splitting on `c` and joining with `c` gives the string back. */
  lemma {:induction false} SplitJoin(s: string, c: char)
    decreases |s|
    ensures JoinChar(SplitChar(s, c), c) == s
  {
    match Find(s, [c])
    case None =>
    case Some(i) =>
      assert s[i..i + 1] == [c];
      SplitJoin(s[i + 1..], c);
      assert s == s[..i] + [c] + s[i + 1..];
  }

  /** A string with exactly one separator splits into the two sides. */
  lemma SplitTwo(a: string, c: char, b: string)
    requires c !in a && c !in b
    ensures SplitChar(a + [c] + b, c) == [a, b]
  {
    var s := a + [c] + b;
    assert OccursAt(s, [c], |a|) by { assert s[|a|..|a| + 1] == [c]; }
    forall j | 0 <= j < |a| ensures !OccursAt(s, [c], j) {
      assert s[j..j + 1][0] == a[j];
    }
    assert Find(s, [c]) == Some(|a|);
    assert s[..|a|] == a;
    assert s[|a| + 1..] == b;
    forall k | 0 <= k ensures !OccursAt(b, [c], k) {
      if k + 1 <= |b| {
        assert b[k..k + 1][0] == b[k];
      }
    }
  }

  /** `s.split()[-1]`, or None when the split list is empty (IndexError). */
  function LastWord(s: string): (r: Option<string>)
    ensures r.None? <==> AllSpace(s)
    ensures r.Some? ==> r.value != [] && NoSpace(r.value)
  {
    var t := StripRight(s);
    if t == [] then None else Some(WordTail(t))
  }

  /** The longest whitespace-free suffix of `t`. */
  function WordTail(t: string): (w: string)
    ensures |w| <= |t| && w == t[|t| - |w|..]
    ensures NoSpace(w)
    ensures |w| == |t| || IsSpace(t[|t| - |w| - 1])
    ensures t != [] && !IsSpace(t[|t| - 1]) ==> w != []
  {
    if t == [] || IsSpace(t[|t| - 1]) then []
    else
      var t' := t[..|t| - 1];
      var w' := WordTail(t');
      assert t[|t| - |w'| - 1..] == t'[|t'| - |w'|..] + [t[|t| - 1]];
      assert |w'| < |t'| ==> t[|t| - |w'| - 2] == t'[|t'| - |w'| - 1];
      w' + [t[|t| - 1]]
  }

  lemma {:induction false} WordTailOf(p: string, w: string)
    requires p == [] || IsSpace(p[|p| - 1])
    requires NoSpace(w)
    ensures WordTail(p + w) == w
  {
    if w == [] {
      assert p + w == p;
    } else {
      var w', c := w[..|w| - 1], w[|w| - 1];
      assert w == w' + [c] && !IsSpace(c);
      assert p + w == (p + w') + [c];
      WordTailOf(p, w');
      WordTailSnoc(p + w', c);
    }
  }

  /** A non-space character extends the tail word. */
  lemma WordTailSnoc(t: string, c: char)
    requires !IsSpace(c)
    ensures WordTail(t + [c]) == WordTail(t) + [c]
  {
    var u := t + [c];
    assert u[..|u| - 1] == t && u[|u| - 1] == c;
  }

  /** The last whitespace-delimited word is found whatever surrounds it. */
  lemma LastWordOf(p: string, w: string, q: string)
    requires p == [] || IsSpace(p[|p| - 1])
    requires w != [] && NoSpace(w)
    requires AllSpace(q)
    ensures LastWord(p + w + q) == Some(w)
  {
    StripRightSpaces(p + w, q);
    WordTailOf(p, w);
  }

  // ---------------------------------------------------------------------
  // int(s, base) for base 10 and base 16
  // ---------------------------------------------------------------------

  predicate IsDigitOf(c: char, base: nat) {
    ('0' <= c <= '9') || (base == 16 && (('a' <= c <= 'f') || ('A' <= c <= 'F')))
  }

  function DigitValue(c: char): nat {
    if '0' <= c <= '9' then (c as int) - ('0' as int)
    else if 'a' <= c <= 'f' then (c as int) - ('a' as int) + 10
    else if 'A' <= c <= 'F' then (c as int) - ('A' as int) + 10
    else 0
  }

  /** The value of a digit string read in `base`, skipping the `_` separators
      that PEP 515 allows. */
  function DigitsValue(s: string, base: nat): nat {
    if s == [] then 0
    else if s[|s| - 1] == '_' then DigitsValue(s[..|s| - 1], base)
    else DigitsValue(s[..|s| - 1], base) * base + DigitValue(s[|s| - 1])
  }

  /** The digit part of an integer literal as `int()` accepts it: at least
      one digit, `_` only between digits, or directly after a `0x` prefix. */
  predicate WellFormedDigits(body: string, base: nat, prefixed: bool) {
    && |body| > 0
    && (forall i :: 0 <= i < |body| ==> body[i] == '_' || IsDigitOf(body[i], base))
    && body[|body| - 1] != '_'
    && (forall i :: 0 <= i < |body| - 1 ==> !(body[i] == '_' && body[i + 1] == '_'))
    && (body[0] == '_' ==> prefixed)
  }

  /** Python's `int(s, base)` for base 10 or 16: surrounding whitespace, an
      optional sign, for base 16 an optional `0x`/`0X`, then digits. */
  function ParseInt(s: string, base: nat): (r: Result<int>)
    requires base == 10 || base == 16
    ensures r.Err? ==> r.error == ValueError
  {
    ParseStripped(Strip(s), base)
  }

  /** `int(t, base)` once the surrounding whitespace is gone. */
  function ParseStripped(t: string, base: nat): (r: Result<int>)
    requires base == 10 || base == 16
    ensures r.Err? ==> r.error == ValueError
  {
    var (negative, unsigned) := SplitSign(t);
    var (prefixed, body) := SplitBasePrefix(unsigned, base);
    if WellFormedDigits(body, base, prefixed) then
      var v: int := DigitsValue(body, base);
      Ok(if negative then -v else v)
    else
      Err(ValueError)
  }

  /** An optional leading sign: whether it is `-`, and the text after it. */
  function SplitSign(t: string): (bool, string) {
    if |t| > 0 && (t[0] == '-' || t[0] == '+') then (t[0] == '-', t[1..]) else (false, t)
  }

  /** For base 16 an optional `0x`/`0X`: whether it is there, and the text after it. */
  function SplitBasePrefix(u: string, base: nat): (bool, string) {
    if base == 16 && |u| >= 2 && u[0] == '0' && (u[1] == 'x' || u[1] == 'X') then (true, u[2..])
    else (false, u)
  }

  // ---------------------------------------------------------------------
  // Renderings: str(n), f"{n:0Wd}", "%0Wx"
  // ---------------------------------------------------------------------

  function DigitChar(d: nat): (c: char)
    requires d < 16
    ensures IsDigitOf(c, 16) && DigitValue(c) == d && !IsSpace(c)
    ensures c != 'x' && c != 'X' && c != '-' && c != '+' && c != '_'
    ensures d < 10 ==> IsDigitOf(c, 10)
    ensures '0' <= c <= '9' || 'a' <= c <= 'f'
  {
    if d < 10 then ((d + '0' as int) as char) else ((d - 10 + 'a' as int) as char)
  }

  predicate AllDigits(s: string, base: nat) {
    forall i :: 0 <= i < |s| ==> IsDigitOf(s[i], base) && s[i] != '_'
  }

  /** `str(n)` for a natural number. */
  function Dec(n: nat): (s: string)
    ensures |s| >= 1
  {
    if n < 10 then [DigitChar(n)] else Dec(n / 10) + [DigitChar(n % 10)]
  }

  /** The last `width` hexadecimal digits of `v`, lower case (C's `%0*x`). */
  function HexDigits(v: nat, width: nat): (s: string)
    ensures |s| == width
    ensures forall i :: 0 <= i < |s| ==> '0' <= s[i] <= '9' || 'a' <= s[i] <= 'f'
  {
    if width == 0 then [] else HexDigits(v / 16, width - 1) + [DigitChar(v % 16)]
  }

  function Pow(b: nat, e: nat): nat {
    if e == 0 then 1 else b * Pow(b, e - 1)
  }

  function Zeros(k: nat): (s: string)
    ensures |s| == k && forall i :: 0 <= i < k ==> s[i] == '0'
  {
    if k == 0 then [] else ['0'] + Zeros(k - 1)
  }

  /** `s` left-padded with '0' to at least `width` characters. */
  function ZeroPad(s: string, width: nat): (r: string)
    ensures |r| >= width && |r| >= |s|
  {
    if |s| >= width then s else Zeros(width - |s|) + s
  }

  lemma DigitsValueSnoc(s: string, c: char, base: nat)
    requires c != '_'
    ensures DigitsValue(s + [c], base) == DigitsValue(s, base) * base + DigitValue(c)
  {
    assert (s + [c])[..|s|] == s;
  }

  lemma {:induction false} DecDigits(n: nat)
    decreases n
    ensures AllDigits(Dec(n), 10)
    ensures DigitsValue(Dec(n), 10) == n
  {
    if n >= 10 {
      DecDigits(n / 10);
      DigitsValueSnoc(Dec(n / 10), DigitChar(n % 10), 10);
    }
  }

  lemma {:induction false} HexDigitsValue(v: nat, width: nat)
    requires v < Pow(16, width)
    decreases width
    ensures AllDigits(HexDigits(v, width), 16)
    ensures DigitsValue(HexDigits(v, width), 16) == v
  {
    if width > 0 {
      HexDigitsValue(v / 16, width - 1);
      DigitsValueSnoc(HexDigits(v / 16, width - 1), DigitChar(v % 16), 16);
    }
  }

  /** Leading zeros do not change a digit string's value. */
  lemma {:induction false} LeadingZeroValue(s: string, base: nat)
    decreases |s|
    ensures DigitsValue(['0'] + s, base) == DigitsValue(s, base)
  {
    if s != [] {
      var s' := s[..|s| - 1];
      assert (['0'] + s)[..|['0'] + s| - 1] == ['0'] + s';
      LeadingZeroValue(s', base);
    }
  }

  lemma {:induction false} ZerosValue(k: nat, s: string, base: nat)
    decreases k
    ensures DigitsValue(Zeros(k) + s, base) == DigitsValue(s, base)
  {
    if k > 0 {
      assert Zeros(k) == ['0'] + Zeros(k - 1);
      assert Zeros(k) + s == ['0'] + (Zeros(k - 1) + s);
      LeadingZeroValue(Zeros(k - 1) + s, base);
      ZerosValue(k - 1, s, base);
    } else {
      assert Zeros(k) + s == s;
    }
  }

  /** A bare digit string parses to its value. */
  lemma ParseDigits(s: string, base: nat)
    requires base == 10 || base == 16
    requires |s| > 0 && AllDigits(s, base)
    requires !(|s| >= 2 && s[0] == '0' && (s[1] == 'x' || s[1] == 'X'))
    ensures ParseInt(s, base) == Ok(DigitsValue(s, base))
  {
    StripDigits(s, base);
    NoSignNoPrefix(s, base);
    DigitsWellFormed(s, base);
    ParseUnsigned(s, base);
  }

  lemma ParseUnsigned(body: string, base: nat)
    requires base == 10 || base == 16
    requires SplitSign(body) == (false, body)
    requires SplitBasePrefix(body, base) == (false, body)
    requires WellFormedDigits(body, base, false)
    ensures ParseStripped(body, base) == Ok(DigitsValue(body, base))
  {
  }

  lemma NoSignNoPrefix(s: string, base: nat)
    requires |s| > 0 && IsDigitOf(s[0], base)
    requires !(|s| >= 2 && s[0] == '0' && (s[1] == 'x' || s[1] == 'X'))
    ensures SplitSign(s) == (false, s)
    ensures SplitBasePrefix(s, base) == (false, s)
  {
  }

  lemma StripDigits(s: string, base: nat)
    requires base == 10 || base == 16
    requires |s| > 0 && AllDigits(s, base)
    ensures ParseInt(s, base) == ParseStripped(s, base)
  {
    assert IsDigitOf(s[0], base) && IsDigitOf(s[|s| - 1], base);
    StripSurrounded([], s, []);
    assert [] + s + [] == s;
  }

  lemma DigitsWellFormed(s: string, base: nat)
    requires |s| > 0 && AllDigits(s, base)
    ensures WellFormedDigits(s, base, false)
  {
  }

  /** `int(str(n)) == n`. */
  lemma ParseDec(n: nat)
    ensures ParseInt(Dec(n), 10) == Ok(n)
  {
    DecDigits(n);
    ParseDigits(Dec(n), 10);
  }

  /** `int(f"{n:0{width}d}") == n`. */
  lemma ParsePadded(n: nat, width: nat)
    ensures ParseInt(ZeroPad(Dec(n), width), 10) == Ok(n)
  {
    DecDigits(n);
    var s := ZeroPad(Dec(n), width);
    if |Dec(n)| < width {
      ZerosValue(width - |Dec(n)|, Dec(n), 10);
      assert AllDigits(s, 10) by {
        forall i | 0 <= i < |s| ensures IsDigitOf(s[i], 10) && s[i] != '_' {
          if i >= width - |Dec(n)| {
            assert s[i] == Dec(n)[i - (width - |Dec(n)|)];
          }
        }
      }
    }
    ParseDigits(s, 10);
  }

  /** `int("%0{width}x" % v, 16) == v` for every value that fits the width. */
  lemma ParseHex(v: nat, width: nat)
    requires width >= 1 && v < Pow(16, width)
    ensures ParseInt(HexDigits(v, width), 16) == Ok(v)
  {
    HexDigitsValue(v, width);
    var s := HexDigits(v, width);
    if |s| >= 2 {
      assert s[1] != 'x' && s[1] != 'X';
    }
    ParseDigits(s, 16);
  }

  /** Distinct numbers render to distinct zero-padded names. */
  lemma PaddedInjective(m: nat, n: nat, width: nat)
    requires ZeroPad(Dec(m), width) == ZeroPad(Dec(n), width)
    ensures m == n
  {
    ParsePadded(m, width);
    ParsePadded(n, width);
  }
}
