/** The pieces of Rust's `str` and integer formatting the builder relies on, with their meaning
    stated and proved once here. */
module Strings {
  import opened Wrappers

  predicate IsPrefix(p: string, s: string) { |p| <= |s| && s[..|p|] == p }

  predicate IsSuffix(p: string, s: string) { |p| <= |s| && s[|s| - |p|..] == p }

  /** `p` occurs in `s` starting at index `i`. */
  predicate OccursAt(s: string, i: nat, p: string) { i + |p| <= |s| && s[i..i + |p|] == p }

  /** `str::starts_with`, character by character. */
  predicate StartsWith(s: string, p: string)
    decreases |p|
  {
    p == [] || (s != [] && s[0] == p[0] && StartsWith(s[1..], p[1..]))
  }

  /** `starts_with` holds exactly when `p` is a prefix of `s`. */
  lemma {:induction false} StartsWithIsPrefix(s: string, p: string)
    ensures StartsWith(s, p) <==> IsPrefix(p, s)
    decreases |p|
  {
    if p != [] && s != [] {
      StartsWithIsPrefix(s[1..], p[1..]);
      if IsPrefix(p, s) {
        assert s[1..][..|p| - 1] == s[..|p|][1..];
      }
      if IsPrefix(p[1..], s[1..]) && s[0] == p[0] {
        assert s[..|p|] == [s[0]] + s[1..][..|p| - 1];
      }
    }
  }

  /** `str::strip_prefix`. */
  function StripPrefix(s: string, p: string): (r: Option<string>)
    ensures r.Some? <==> IsPrefix(p, s)
    ensures r.Some? ==> p + r.value == s
  {
    if IsPrefix(p, s) then Some(s[|p|..]) else None
  }

  /** `str::strip_suffix`. */
  function StripSuffix(s: string, p: string): (r: Option<string>)
    ensures r.Some? <==> IsSuffix(p, s)
    ensures r.Some? ==> r.value + p == s
  {
    if IsSuffix(p, s) then Some(s[..|s| - |p|]) else None
  }

  // ---------------------------------------------------------------------------------------------
  // str::replace

  /** `str::replace`: scanning from the left, every non-overlapping occurrence of `pat` becomes
      `rep`; the text `rep` puts in is not scanned again. */
  function ReplaceAll(s: string, pat: string, rep: string): string
    requires pat != []
    decreases |s|
  {
    if |s| < |pat| then s
    else if s[..|pat|] == pat then rep + ReplaceAll(s[|pat|..], pat, rep)
    else [s[0]] + ReplaceAll(s[1..], pat, rep)
  }

  /** Text in which `pat` does not occur comes back unchanged. */
  lemma {:induction false} ReplaceAllAbsent(s: string, pat: string, rep: string)
    requires pat != []
    requires forall i: nat :: !OccursAt(s, i, pat)
    ensures ReplaceAll(s, pat, rep) == s
    decreases |s|
  {
    if |s| >= |pat| {
      assert !OccursAt(s, 0, pat);
      forall i: nat ensures !OccursAt(s[1..], i, pat) {
        if OccursAt(s[1..], i, pat) {
          assert s[1..][i..i + |pat|] == s[i + 1..i + 1 + |pat|];
          assert OccursAt(s, i + 1, pat);
        }
      }
      ReplaceAllAbsent(s[1..], pat, rep);
      assert [s[0]] + s[1..] == s;
    }
  }

  /** An occurrence in the tail of `s` is an occurrence in `s`, one place on. */
  lemma OccursAtTail(s: string, j: nat, pat: string)
    requires |s| >= 1
    ensures OccursAt(s[1..], j, pat) ==> OccursAt(s, j + 1, pat)
  {
    if j + |pat| <= |s| - 1 {
      assert s[1..][j..j + |pat|] == s[j + 1..j + 1 + |pat|];
    }
  }

  /** A front part of `s` free of occurrences stays free of them once `s` loses its first
      character. */
  lemma NoOccurrenceInTail(s: string, pat: string, k: nat)
    requires 1 <= k <= |s|
    requires forall j: nat :: j < k ==> !OccursAt(s, j, pat)
    ensures forall j: nat :: j < k - 1 ==> !OccursAt(s[1..], j, pat)
  {
    forall j: nat | j < k - 1 ensures !OccursAt(s[1..], j, pat) {
      assert !OccursAt(s, j + 1, pat);
      OccursAtTail(s, j, pat);
    }
  }

  /** A front part in which no occurrence of `pat` starts is copied unchanged. */
  lemma {:induction false} ReplaceAllUntouchedPrefix(s: string, pat: string, rep: string, k: nat)
    requires pat != [] && k <= |s|
    requires forall j: nat :: j < k ==> !OccursAt(s, j, pat)
    ensures ReplaceAll(s, pat, rep) == s[..k] + ReplaceAll(s[k..], pat, rep)
    decreases k
  {
    if k == 0 {
      assert s[..0] == [] && s[0..] == s;
    } else {
      var rest := ReplaceAll(s[k..], pat, rep);
      ReplaceAllHead(s, pat, rep);
      NoOccurrenceInTail(s, pat, k);
      ReplaceAllUntouchedPrefix(s[1..], pat, rep, k - 1);
      assert s[1..][k - 1..] == s[k..];
      assert [s[0]] + s[1..][..k - 1] == s[..k];
      assert [s[0]] + (s[1..][..k - 1] + rest) == ([s[0]] + s[1..][..k - 1]) + rest;
    }
  }

  /** Where no occurrence starts, the first character is copied. */
  lemma ReplaceAllHead(s: string, pat: string, rep: string)
    requires pat != [] && |s| >= 1 && !OccursAt(s, 0, pat)
    ensures ReplaceAll(s, pat, rep) == [s[0]] + ReplaceAll(s[1..], pat, rep)
  {
    if |s| < |pat| {
      assert [s[0]] + s[1..] == s;
    } else {
      assert s[0..|pat|] == s[..|pat|];
    }
  }

  /** Replacing a pattern by itself changes nothing. */
  lemma {:induction false} ReplaceAllSelf(s: string, pat: string)
    requires pat != []
    ensures ReplaceAll(s, pat, pat) == s
    decreases |s|
  {
    if |s| >= |pat| {
      if s[..|pat|] == pat {
        ReplaceAllSelf(s[|pat|..], pat);
        assert s[..|pat|] + s[|pat|..] == s;
      } else {
        ReplaceAllSelf(s[1..], pat);
        assert [s[0]] + s[1..] == s;
      }
    }
  }

  /** The one occurrence of a suffix whose first character appears nowhere else in it is the only
      thing replaced when the text before it holds no occurrence. */
  lemma {:induction false} ReplaceAllLastOnly(stem: string, pat: string, rep: string)
    requires pat != [] && forall k :: 1 <= k < |pat| ==> pat[k] != pat[0]
    requires forall i: nat :: !OccursAt(stem, i, pat)
    ensures ReplaceAll(stem + pat, pat, rep) == stem + rep
    decreases |stem|
  {
    var s := stem + pat;
    if stem == [] {
      assert s == pat && s[|pat|..] == [];
    } else {
      if |stem| >= |pat| {
        assert stem[0..|pat|] == s[..|pat|];
        assert !OccursAt(stem, 0, pat);
      } else {
        assert s[..|pat|][|stem|] == pat[0];
        assert pat[|stem|] != pat[0];
      }
      assert s[..|pat|] != pat;
      forall i: nat ensures !OccursAt(stem[1..], i, pat) {
        if OccursAt(stem[1..], i, pat) {
          assert stem[1..][i..i + |pat|] == stem[i + 1..i + 1 + |pat|];
          assert OccursAt(stem, i + 1, pat);
        }
      }
      ReplaceAllLastOnly(stem[1..], pat, rep);
      assert s[1..] == stem[1..] + pat;
      assert [s[0]] + (stem[1..] + rep) == stem + rep;
    }
  }

  // ---------------------------------------------------------------------------------------------
  // Ordering of Rust `String`s

  /** The lexicographic order `Ord for String` uses (byte order, which for the ASCII names used
      here is character order). */
  predicate Less(a: string, b: string)
  {
    if a == [] then b != []
    else b != [] && (a[0] < b[0] || (a[0] == b[0] && Less(a[1..], b[1..])))
  }

  lemma {:induction false} LessIrreflexive(a: string)
    ensures !Less(a, a)
  {
    if a != [] {
      LessIrreflexive(a[1..]);
    }
  }

  lemma {:induction false} LessTransitive(a: string, b: string, c: string)
    requires Less(a, b) && Less(b, c)
    ensures Less(a, c)
  {
    if a != [] && a[0] == b[0] && b[0] == c[0] {
      LessTransitive(a[1..], b[1..], c[1..]);
    }
  }

  lemma {:induction false} LessTotal(a: string, b: string)
    requires a != b
    ensures Less(a, b) || Less(b, a)
  {
    if a != [] && b != [] && a[0] == b[0] {
      assert a == [a[0]] + a[1..] && b == [b[0]] + b[1..];
      LessTotal(a[1..], b[1..]);
    }
  }

  lemma LessAsymmetric(a: string, b: string)
    requires Less(a, b)
    ensures !Less(b, a)
  {
    if Less(b, a) {
      LessTransitive(a, b, a);
      LessIrreflexive(a);
    }
  }

  // ---------------------------------------------------------------------------------------------
  // Decimal integers: `to_string` and `str::parse::<i64>`

  const I64Min: int := -0x8000_0000_0000_0000
  const I64Max: int := 0x7FFF_FFFF_FFFF_FFFF

  predicate IsDigit(c: char) { '0' <= c <= '9' }

  predicate AllDigits(s: string) { forall i :: 0 <= i < |s| ==> IsDigit(s[i]) }

  function DigitChar(d: nat): (c: char)
    requires d < 10
    ensures IsDigit(c)
  {
    (48 + d) as char
  }

  function DigitValue(c: char): nat
    requires IsDigit(c)
  {
    c as int - 48
  }

  /** The number a string of decimal digits denotes (leading zeros allowed). */
  function DigitsValue(s: string): nat
    requires AllDigits(s)
    decreases |s|
  {
    if s == [] then 0 else DigitsValue(s[..|s| - 1]) * 10 + DigitValue(s[|s| - 1])
  }

  /** `u64::to_string`: the shortest decimal rendering. */
  function NatToString(n: nat): (r: string)
    ensures r != [] && AllDigits(r)
    ensures DigitsValue(r) == n
    ensures r[0] == '0' ==> r == "0"
    decreases n
  {
    if n < 10 then [DigitChar(n)]
    else
      var front := NatToString(n / 10);
      var r := front + [DigitChar(n % 10)];
      assert r[..|r| - 1] == front;
      r
  }

  /** `i64::to_string`. */
  function IntToString(x: int): string
  {
    if x < 0 then "-" + NatToString(-x) else NatToString(x)
  }

  /** `str::parse::<i64>`: an optional sign, then at least one digit and only digits, and a value
      in range. */
  function ParseI64(s: string): (r: Option<int>)
    ensures r.Some? ==> I64Min <= r.value <= I64Max
  {
    if s == [] then None
    else if (s[0] == '+' || s[0] == '-') && |s| == 1 then None
    else
      var digits := if s[0] == '+' || s[0] == '-' then s[1..] else s;
      if !AllDigits(digits) then None
      else
        var v: int := if s[0] == '-' then 0 - DigitsValue(digits) as int else DigitsValue(digits) as int;
        if I64Min <= v <= I64Max then Some(v) else None
  }

  /** Parsing reads back what `to_string` wrote. */
  lemma ParseIntToString(x: int)
    requires I64Min <= x <= I64Max
    ensures ParseI64(IntToString(x)) == Some(x)
  {
    var s := IntToString(x);
    if x < 0 {
      assert s[1..] == NatToString(-x);
    } else {
      assert s[0] != '-' && s[0] != '+';
    }
  }

  // ---------------------------------------------------------------------------------------------
  // Splitting on and joining with a separator character

  /** `str::split(sep)` for a one-character separator: the pieces between separators, including
      empty ones; the empty string gives one empty piece. */
  function Split(s: string, sep: char): (r: seq<string>)
    ensures |r| >= 1
    ensures forall k :: 0 <= k < |r| ==> sep !in r[k]
    decreases |s|
  {
    if s == [] then [[]]
    else
      var rest := Split(s[1..], sep);
      if s[0] == sep then [[]] + rest else [[s[0]] + rest[0]] + rest[1..]
  }

  /** `join(sep)` of an iterator of strings. */
  function Join(parts: seq<string>, sep: char): string
    decreases |parts|
  {
    if parts == [] then []
    else if |parts| == 1 then parts[0]
    else parts[0] + [sep] + Join(parts[1..], sep)
  }

  lemma {:induction false} JoinSplit(s: string, sep: char)
    ensures Join(Split(s, sep), sep) == s
    decreases |s|
  {
    if s != [] {
      var rest := Split(s[1..], sep);
      JoinSplit(s[1..], sep);
      if s[0] == sep {
        assert Split(s, sep)[1..] == rest;
      } else {
        var r := Split(s, sep);
        if |rest| == 1 {
          assert r == [[s[0]] + rest[0]];
        } else {
          assert r[1..] == rest[1..];
          assert Join(rest, sep) == rest[0] + [sep] + Join(rest[1..], sep);
        }
      }
    }
  }

  lemma {:induction false} SplitJoin(parts: seq<string>, sep: char)
    requires |parts| >= 1
    requires forall k :: 0 <= k < |parts| ==> sep !in parts[k]
    ensures Split(Join(parts, sep), sep) == parts
    decreases |parts|, |parts[0]|
  {
    var p := parts[0];
    if p == [] {
      if |parts| > 1 {
        SplitJoin(parts[1..], sep);
        assert Join(parts, sep) == [sep] + Join(parts[1..], sep);
        assert ([sep] + Join(parts[1..], sep))[1..] == Join(parts[1..], sep);
        assert [[]] + parts[1..] == parts;
      }
    } else {
      var tail := [p[1..]] + parts[1..];
      assert sep !in tail[0] by { assert forall k :: 0 <= k < |p[1..]| ==> p[1..][k] == p[k + 1]; }
      SplitJoin(tail, sep);
      var j := Join(parts, sep);
      if |parts| == 1 {
        assert j == p && j[1..] == Join(tail, sep);
      } else {
        assert j == p + [sep] + Join(parts[1..], sep);
        assert Join(tail, sep) == p[1..] + [sep] + Join(parts[1..], sep);
        assert j[1..] == Join(tail, sep);
      }
      assert j[0] == p[0] != sep;
      assert [p[0]] + p[1..] == p;
      assert [[p[0]] + tail[0]] + tail[1..] == parts;
    }
  }
}
