/** The string operations the manager takes from .NET, with their ordinal (code-unit by
    code-unit) semantics: substring search, trimming, ASCII lower-casing, splitting on a
    separator with empty entries removed, and character-class filtering. */
module Text {

  /** `sub` occurs in `s` starting at index `i`. */
  predicate OccursAt(s: string, sub: string, i: int)
  {
    0 <= i && i + |sub| <= |s| && s[i..i + |sub|] == sub
  }

  /** Index of the first occurrence of `sub` in `s` at or after `from`, or -1 when there is
      none (String.IndexOf with ordinal comparison). */
  function IndexOfFrom(s: string, sub: string, from: nat): (r: int)
    ensures r == -1 || (from <= r && OccursAt(s, sub, r))
    ensures r == -1 ==> forall i :: from <= i ==> !OccursAt(s, sub, i)
    ensures r >= 0 ==> forall i :: from <= i < r ==> !OccursAt(s, sub, i)
    decreases |s| - from
  {
    if from + |sub| > |s| then -1
    else if s[from..from + |sub|] == sub then from
    else IndexOfFrom(s, sub, from + 1)
  }

  /** String.Contains: `sub` occurs somewhere in `s` (the empty string occurs everywhere). */
  function Contains(s: string, sub: string): (r: bool)
    ensures r <==> exists i :: OccursAt(s, sub, i)
  {
    IndexOfFrom(s, sub, 0) >= 0
  }

  /** Longest prefix of `s` holding none of the characters in `stops`. */
  function SpanUntil(s: string, stops: set<char>): (r: string)
    ensures r <= s
    ensures forall i :: 0 <= i < |r| ==> r[i] !in stops
    ensures |r| == |s| || s[|r|] in stops
  {
    if s == [] || s[0] in stops then [] else [s[0]] + SpanUntil(s[1..], stops)
  }

  /** Char.IsWhiteSpace: the Unicode space, line and paragraph separators together with
      U+0009..U+000D and U+0085. */
  predicate IsWhiteSpace(c: char)
  {
    var k := c as int;
    k == 0x20 || 0x09 <= k <= 0x0D || k == 0x85 || k == 0xA0 || k == 0x1680
    || 0x2000 <= k <= 0x200A || k == 0x2028 || k == 0x2029 || k == 0x202F
    || k == 0x205F || k == 0x3000
  }

  /** Neither end of `s` is white space. */
  predicate IsTrimmed(s: string)
  {
    s == [] || (!IsWhiteSpace(s[0]) && !IsWhiteSpace(s[|s| - 1]))
  }

  /** String.TrimStart(): drops the leading white space and nothing else. */
  function TrimStart(s: string): (r: string)
    ensures |r| <= |s| && r == s[|s| - |r|..]
    ensures r == [] || !IsWhiteSpace(r[0])
    ensures forall i :: 0 <= i < |s| - |r| ==> IsWhiteSpace(s[i])
  {
    if s != [] && IsWhiteSpace(s[0]) then TrimStart(s[1..]) else s
  }

  /** String.TrimEnd(): drops the trailing white space and nothing else. */
  function TrimEnd(s: string): (r: string)
    ensures r <= s
    ensures r == [] || !IsWhiteSpace(r[|r| - 1])
    ensures forall i :: |r| <= i < |s| ==> IsWhiteSpace(s[i])
  {
    if s != [] && IsWhiteSpace(s[|s| - 1]) then TrimEnd(s[..|s| - 1]) else s
  }

  /** String.Trim(): the slice of `s` left after removing white space at both ends. */
  function Trim(s: string): (r: string)
    ensures IsTrimmed(r)
    ensures |r| <= |s|
    ensures (forall i :: 0 <= i < |s| ==> IsWhiteSpace(s[i])) <==> r == []
  {
    TrimEnds(s);
    TrimBlank(s);
    TrimEnd(TrimStart(s))
  }

  /** Trimming leaves no white space at either end. */
  lemma TrimEnds(s: string)
    ensures IsTrimmed(TrimEnd(TrimStart(s)))
  {
    var t := TrimStart(s);
    var r := TrimEnd(t);
    if r != [] {
      assert r[0] == t[0];
    }
  }

  /** Trimming leaves nothing exactly when every character is white space. */
  lemma TrimBlank(s: string)
    ensures (forall i :: 0 <= i < |s| ==> IsWhiteSpace(s[i])) <==> TrimEnd(TrimStart(s)) == []
  {
    if forall i :: 0 <= i < |s| ==> IsWhiteSpace(s[i]) {
      BlankTrimsAway(s);
    }
    if TrimEnd(TrimStart(s)) == [] {
      TrimmedAwayIsBlank(s, TrimStart(s));
    }
  }

  lemma BlankTrimsAway(s: string)
    requires forall i :: 0 <= i < |s| ==> IsWhiteSpace(s[i])
    ensures TrimStart(s) == []
  {
  }

  lemma TrimmedAwayIsBlank(s: string, t: string)
    requires t == TrimStart(s) && TrimEnd(t) == []
    ensures forall i :: 0 <= i < |s| ==> IsWhiteSpace(s[i])
  {
  }

  /** Trimming only removes characters. */
  lemma TrimChars(s: string, c: char)
    requires c in Trim(s)
    ensures c in s
  {
    var t := TrimStart(s);
    var r := TrimEnd(t);
    assert Trim(s) == r;
    var i :| 0 <= i < |r| && r[i] == c;
    assert r <= t;
    assert t[i] == c;
    assert t == s[|s| - |t|..];
    assert s[|s| - |t| + i] == c;
  }

  /** Trimming a string whose ends are not white space leaves it unchanged, so Trim is
      idempotent. */
  lemma TrimFixpoint(s: string)
    requires IsTrimmed(s)
    ensures Trim(s) == s
  {
  }

  lemma TrimIdempotent(s: string)
    ensures Trim(Trim(s)) == Trim(s)
  {
    TrimFixpoint(Trim(s));
  }

  /** Char.ToLowerInvariant restricted to ASCII: 'A'..'Z' become 'a'..'z'. */
  function ToLowerChar(c: char): (r: char)
    ensures !('A' <= r <= 'Z')
    ensures !('A' <= c <= 'Z') ==> r == c
  {
    if 'A' <= c <= 'Z' then (c as int + 32) as char else c
  }

  /** No ASCII upper-case letter occurs in `s`. */
  predicate IsLower(s: string)
  {
    forall i :: 0 <= i < |s| ==> !('A' <= s[i] <= 'Z')
  }

  /** String.ToLowerInvariant (ASCII letters only), character by character. */
  function ToLower(s: string): (r: string)
    ensures |r| == |s| && forall i {:trigger r[i]} :: 0 <= i < |s| ==> r[i] == ToLowerChar(s[i])
  {
    if s == [] then [] else [ToLowerChar(s[0])] + ToLower(s[1..])
  }

  /** Lower-casing yields a lower-case string, and a lower-case string is its own lower-case
      form; lower-casing does not move white space. */
  lemma ToLowerFacts(s: string)
    ensures IsLower(ToLower(s))
    ensures IsLower(s) ==> ToLower(s) == s
    ensures IsTrimmed(s) ==> IsTrimmed(ToLower(s))
  {
  }

  /** Index of the first `c` in `s`, or |s| when `c` does not occur. */
  function IndexOfChar(s: string, c: char): (r: nat)
    ensures r <= |s|
    ensures r < |s| ==> s[r] == c
    ensures forall i :: 0 <= i < r ==> s[i] != c
  {
    if s == [] || s[0] == c then 0 else 1 + IndexOfChar(s[1..], c)
  }

  /** String.Split(sep, StringSplitOptions.RemoveEmptyEntries): the maximal runs of `s`
      without `sep`, in order, with empty runs left out. */
  function SplitRemoveEmpty(s: string, sep: char): (r: seq<string>)
    ensures forall k :: 0 <= k < |r| ==> r[k] != [] && sep !in r[k]
    decreases |s|
  {
    if s == [] then []
    else
      var i := IndexOfChar(s, sep);
      var rest := if i < |s| then SplitRemoveEmpty(s[i + 1..], sep) else [];
      if i == 0 then rest else [s[..i]] + rest
  }

  /** The pieces, separated by one `sep` each. */
  function Join(parts: seq<string>, sep: char): string
  {
    if parts == [] then []
    else if |parts| == 1 then parts[0]
    else parts[0] + [sep] + Join(parts[1..], sep)
  }

  /** Splitting undoes joining when no piece is empty or holds the separator: the split loses
      nothing but the separators and the empty entries. */
  lemma {:induction false} SplitJoin(parts: seq<string>, sep: char)
    requires forall k :: 0 <= k < |parts| ==> parts[k] != [] && sep !in parts[k]
    ensures SplitRemoveEmpty(Join(parts, sep), sep) == parts
    decreases |parts|
  {
    if |parts| == 1 {
      SplitSingle(parts[0], sep);
    } else if |parts| > 1 {
      var t := Join(parts[1..], sep);
      SplitAtHead(parts[0], t, sep);
      SplitJoin(parts[1..], sep);
      assert parts == [parts[0]] + parts[1..];
    }
  }

  /** A piece without the separator splits into itself. */
  lemma SplitSingle(p: string, sep: char)
    requires p != [] && sep !in p
    ensures SplitRemoveEmpty(p, sep) == [p]
  {
    assert p[..|p|] == p;
    assert IndexOfChar(p, sep) == |p|;
  }

  /** A piece without the separator, the separator, then the rest: the piece is split off. */
  lemma SplitAtHead(p: string, t: string, sep: char)
    requires p != [] && sep !in p
    ensures SplitRemoveEmpty(p + [sep] + t, sep) == [p] + SplitRemoveEmpty(t, sep)
  {
    var s := p + [sep] + t;
    assert s[|p|] == sep;
    assert forall i :: 0 <= i < |p| ==> s[i] == p[i];
    assert IndexOfChar(s, sep) == |p|;
    assert s[..|p|] == p;
    assert s[|p| + 1..] == t;
  }

  /** The pieces run together. */
  function Concat(parts: seq<string>): string
  {
    if parts == [] then [] else parts[0] + Concat(parts[1..])
  }

  /** `s` with every `c` removed. */
  function Without(s: string, c: char): (r: string)
    ensures c !in r
  {
    if s == [] then [] else (if s[0] == c then [] else [s[0]]) + Without(s[1..], c)
  }

  /** The split keeps every character of the input but the separators, in order. */
  lemma {:induction false} SplitKeepsOtherChars(s: string, sep: char)
    ensures Concat(SplitRemoveEmpty(s, sep)) == Without(s, sep)
    decreases |s|
  {
    if s != [] {
      var i := IndexOfChar(s, sep);
      assert s == s[..i] + s[i..];
      WithoutDistributes(s[..i], s[i..], sep);
      WithoutAbsent(s[..i], sep);
      var r := SplitRemoveEmpty(s, sep);
      if i < |s| {
        var tail := s[i + 1..];
        assert s[i..] == [sep] + tail;
        assert Without(s[i..], sep) == Without(tail, sep);
        SplitKeepsOtherChars(tail, sep);
        var rest := SplitRemoveEmpty(tail, sep);
        if i > 0 {
          assert r == [s[..i]] + rest;
          assert r[0] == s[..i] && r[1..] == rest;
        } else {
          assert r == rest;
        }
      } else {
        assert s[i..] == [];
        assert s[..i] == s;
        assert r == [s];
        assert r[0] == s && r[1..] == [];
        assert Concat(r) == s + Concat([]);
      }
    }
  }

  lemma {:induction false} WithoutDistributes(a: string, b: string, c: char)
    ensures Without(a + b, c) == Without(a, c) + Without(b, c)
    decreases |a|
  {
    if a != [] {
      assert (a + b)[0] == a[0] && (a + b)[1..] == a[1..] + b;
      WithoutDistributes(a[1..], b, c);
    } else {
      assert a + b == b;
    }
  }

  lemma {:induction false} WithoutAbsent(s: string, c: char)
    requires c !in s
    ensures Without(s, c) == s
    decreases |s|
  {
    if s != [] {
      WithoutAbsent(s[1..], c);
      assert s == [s[0]] + s[1..];
    }
  }

  predicate IsDigit(c: char) { '0' <= c <= '9' }

  predicate IsAsciiLowerLetter(c: char) { 'a' <= c <= 'z' }

  /** Regex.Replace(s, "[^0-9]", ""): the digits of `s`, in order. */
  function KeepDigits(s: string): (r: string)
    ensures |r| <= |s|
    ensures forall i :: 0 <= i < |r| ==> IsDigit(r[i])
    ensures (forall i :: 0 <= i < |s| ==> IsDigit(s[i])) ==> r == s
  {
    if s == [] then []
    else (if IsDigit(s[0]) then [s[0]] else []) + KeepDigits(s[1..])
  }

  /** Regex.Replace(s, "[^a-z]", ""): the ASCII lower-case letters of `s`, in order. */
  function KeepLowerLetters(s: string): (r: string)
    ensures |r| <= |s|
    ensures forall i :: 0 <= i < |r| ==> IsAsciiLowerLetter(r[i])
    ensures (forall i :: 0 <= i < |s| ==> IsAsciiLowerLetter(s[i])) ==> r == s
  {
    if s == [] then []
    else (if IsAsciiLowerLetter(s[0]) then [s[0]] else []) + KeepLowerLetters(s[1..])
  }

  /** Both filters distribute over concatenation. */
  lemma KeepDistributes(a: string, b: string)
    ensures KeepDigits(a + b) == KeepDigits(a) + KeepDigits(b)
    ensures KeepLowerLetters(a + b) == KeepLowerLetters(a) + KeepLowerLetters(b)
  {
    KeepDigitsDistributes(a, b);
    KeepLowerLettersDistributes(a, b);
  }

  lemma {:induction false} KeepDigitsDistributes(a: string, b: string)
    ensures KeepDigits(a + b) == KeepDigits(a) + KeepDigits(b)
    decreases |a|
  {
    if a != [] {
      assert (a + b)[0] == a[0] && (a + b)[1..] == a[1..] + b;
      KeepDigitsDistributes(a[1..], b);
      var h := if IsDigit(a[0]) then [a[0]] else [];
      StringAppendAssoc(h, KeepDigits(a[1..]), KeepDigits(b));
    } else {
      assert a + b == b;
    }
  }

  lemma {:induction false} KeepLowerLettersDistributes(a: string, b: string)
    ensures KeepLowerLetters(a + b) == KeepLowerLetters(a) + KeepLowerLetters(b)
    decreases |a|
  {
    if a != [] {
      assert (a + b)[0] == a[0] && (a + b)[1..] == a[1..] + b;
      KeepLowerLettersDistributes(a[1..], b);
      var h := if IsAsciiLowerLetter(a[0]) then [a[0]] else [];
      StringAppendAssoc(h, KeepLowerLetters(a[1..]), KeepLowerLetters(b));
    } else {
      assert a + b == b;
    }
  }

  lemma StringAppendAssoc(a: string, b: string, c: string)
    ensures a + (b + c) == (a + b) + c
  {
  }

  /** The value of a string of decimal digits (leading zeros allowed). */
  function DecimalValue(ds: string): nat
    requires forall i :: 0 <= i < |ds| ==> IsDigit(ds[i])
  {
    if ds == [] then 0
    else
      assert IsDigit(ds[|ds| - 1]);
      DecimalValue(ds[..|ds| - 1]) * 10 + (ds[|ds| - 1] as int - '0' as int)
  }

  /** Leading zeros do not change the value. */
  lemma {:induction false} LeadingZerosValue(zeros: string, ds: string)
    requires forall i :: 0 <= i < |zeros| ==> zeros[i] == '0'
    requires forall i :: 0 <= i < |ds| ==> IsDigit(ds[i])
    ensures DecimalValue(zeros + ds) == DecimalValue(ds)
    decreases |ds|
  {
    var t := zeros + ds;
    if ds == [] {
      assert t == zeros;
      ZerosValue(zeros);
    } else {
      assert t[..|t| - 1] == zeros + ds[..|ds| - 1];
      assert t[|t| - 1] == ds[|ds| - 1];
      LeadingZerosValue(zeros, ds[..|ds| - 1]);
    }
  }

  lemma {:induction false} ZerosValue(zeros: string)
    requires forall i :: 0 <= i < |zeros| ==> zeros[i] == '0'
    ensures DecimalValue(zeros) == 0
    decreases |zeros|
  {
    if zeros != [] {
      ZerosValue(zeros[..|zeros| - 1]);
    }
  }

  /** The shortest decimal spelling of `n`. */
  function DecimalString(n: nat): (r: string)
    ensures r != [] && forall i :: 0 <= i < |r| ==> IsDigit(r[i])
  {
    var d := ('0' as int + n % 10) as char;
    if n < 10 then [d] else DecimalString(n / 10) + [d]
  }

  lemma {:induction false} DecimalRoundTrip(n: nat)
    ensures DecimalValue(DecimalString(n)) == n
  {
    var ds := DecimalString(n);
    if n >= 10 {
      DecimalRoundTrip(n / 10);
      assert ds[..|ds| - 1] == DecimalString(n / 10);
    }
  }
}
