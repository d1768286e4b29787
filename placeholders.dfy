/** The placeholder grammar of framework HTML: `{{ name }}` for a variable and
    `{{ components/name }}` for a component, found the way `Regex::captures_iter` finds the
    matches of `\{\{ (NAME*) }}` and `\{\{ components/(NAME*) }}`. Both the builder and the older
    scanner use these shapes; they differ only in which characters a name may contain. */
module Placeholders {
  import opened Wrappers
  import opened Strings

  /** `\w`, restricted to ASCII. */
  predicate IsWordChar(c: char)
  {
    'a' <= c <= 'z' || 'A' <= c <= 'Z' || '0' <= c <= '9' || c == '_'
  }

  /** One placeholder regex: the literal text in front of the captured name, and whether the
      name's character class admits `-` besides `\w`. */
  datatype Pattern = Pattern(open: string, hyphen: bool)

  /** The literal text after the captured name. */
  const Close: string := " }}"

  predicate IsNameChar(p: Pattern, c: char) { IsWordChar(c) || (p.hyphen && c == '-') }

  predicate IsName(p: Pattern, n: string) { forall k :: 0 <= k < |n| ==> IsNameChar(p, n[k]) }

  /** What both regexes share: they open with `{{ ` and have no other `{`. */
  predicate WellFormed(p: Pattern)
  {
    && |p.open| >= 3
    && p.open[0] == '{' && p.open[1] == '{' && p.open[2] == ' '
    && forall k :: 2 <= k < |p.open| ==> p.open[k] != '{'
  }

  /** The placeholder text that names `n`. */
  function Token(p: Pattern, n: string): string { p.open + n + Close }

  /** The placeholder for name `n` stands in `s` at index `i`. */
  predicate Occurs(s: string, i: nat, p: Pattern, n: string)
  {
    IsName(p, n) && OccursAt(s, i, Token(p, n))
  }

  /** Some placeholder for `n` stands somewhere in `s`. */
  ghost predicate Referenced(s: string, p: Pattern, n: string)
  {
    exists i: nat :: Occurs(s, i, p, n)
  }

  /** End of the longest run of name characters that starts at `k`: how far the greedy `NAME*`
      reaches. */
  function RunEnd(s: string, k: nat, p: Pattern): (e: nat)
    requires k <= |s|
    ensures k <= e <= |s|
    ensures IsName(p, s[k..e])
    ensures e == |s| || !IsNameChar(p, s[e])
    decreases |s| - k
  {
    if k == |s| || !IsNameChar(p, s[k]) then k
    else
      var e := RunEnd(s, k + 1, p);
      assert s[k..e] == [s[k]] + s[k + 1..e];
      e
  }

  lemma {:induction false} RunEndAt(s: string, k: nat, m: nat, p: Pattern)
    requires k + m <= |s|
    requires IsName(p, s[k..k + m])
    requires k + m == |s| || !IsNameChar(p, s[k + m])
    ensures RunEnd(s, k, p) == k + m
    decreases m
  {
    if m > 0 {
      assert s[k..k + m][0] == s[k];
      assert s[k + 1..k + m] == s[k..k + m][1..];
      RunEndAt(s, k + 1, m - 1, p);
    }
  }

  /** The match the regex finds when it tries index `i`: the opening text, the greedy name, then
      the closing text (a name cannot contain a space, so backtracking never helps). */
  function MatchAt(s: string, i: nat, p: Pattern): (r: Option<string>)
    requires i <= |s|
    ensures r.Some? ==> Occurs(s, i, p, r.value)
  {
    if !IsPrefix(p.open, s[i..]) then None
    else
      var k := i + |p.open|;
      var e := RunEnd(s, k, p);
      if OccursAt(s, e, Close) then
        var n := s[k..e];
        assert s[i..k] == p.open by { assert s[i..k] == s[i..][..|p.open|]; }
        assert s[i..e + |Close|] == s[i..k] + s[k..e] + s[e..e + |Close|];
        Some(n)
      else None
  }

  /** A slice of a slice is a slice. */
  lemma SubSlice(s: string, i: nat, j: nat, a: nat, b: nat)
    requires i <= j <= |s| && a <= b <= j - i
    ensures s[i..j][a..b] == s[i + a..i + b]
  {
    assert forall k :: 0 <= k < b - a ==> s[i..j][a..b][k] == s[i + a + k];
  }

  /** Where a placeholder stands, its three parts stand one after the other. */
  lemma TokenParts(s: string, i: nat, p: Pattern, n: string)
    requires OccursAt(s, i, Token(p, n))
    ensures IsPrefix(p.open, s[i..])
    ensures s[i + |p.open|..i + |p.open| + |n|] == n
    ensures OccursAt(s, i + |p.open| + |n|, Close)
  {
    var t := Token(p, n);
    var o := |p.open|;
    var j := i + |t|;
    assert t[..o] == p.open && t[o..o + |n|] == n && t[o + |n|..] == Close;
    SubSlice(s, i, j, 0, o);
    SubSlice(s, i, |s|, 0, o);
    SubSlice(s, i, j, o, o + |n|);
    SubSlice(s, i, j, o + |n|, |t|);
  }

  /** Wherever a placeholder stands, the regex matches exactly it when trying that index. */
  lemma MatchAtComplete(s: string, i: nat, p: Pattern, n: string)
    requires Occurs(s, i, p, n)
    ensures MatchAt(s, i, p) == Some(n)
  {
    var k := i + |p.open|;
    var e := k + |n|;
    TokenParts(s, i, p, n);
    assert s[e] == s[e..e + |Close|][0] == ' ';
    RunEndAt(s, k, |n|, p);
  }

  /** Two placeholders, of whatever kind, never overlap: inside a placeholder only its first two
      characters are `{`. */
  lemma NoOverlap(s: string, i: nat, p: Pattern, m: string, j: nat, q: Pattern, n: string)
    requires WellFormed(p) && WellFormed(q)
    requires Occurs(s, i, p, m)
    requires i < j < i + |Token(p, m)|
    ensures !Occurs(s, j, q, n)
  {
    var t := Token(p, m);
    var u := Token(q, n);
    assert s[i..i + |t|] == t;
    assert u[0] == '{' && u[1] == '{';
    if j + |u| <= |s| {
      var off := j - i;
      if off == 1 {
        assert s[j..j + |u|][1] == s[j + 1] == t[2] == ' ';
      } else {
        assert s[j] == t[off];
        if off < |p.open| {
          assert t[off] == p.open[off];
        } else if off < |p.open| + |m| {
          assert t[off] == m[off - |p.open|];
        } else {
          assert t[off] == Close[off - |p.open| - |m|];
        }
        assert s[j..j + |u|][0] == s[j] != '{';
      }
      assert s[j..j + |u|] != u;
    }
  }

  /** A component placeholder is never also read as a variable placeholder: the name would have
      to run into the `/` of `components/`. */
  lemma ComponentIsNotVariable(s: string, i: nat, v: Pattern, c: Pattern, comp: string, n: string)
    requires v.open == "{{ " && c.open == "{{ components/"
    requires Occurs(s, i, c, comp)
    ensures !Occurs(s, i, v, n)
  {
    var t := Token(c, comp);
    var u := Token(v, n);
    assert s[i..i + |t|] == t;
    if IsName(v, n) && i + |u| <= |s| {
      var len := |n|;
      if len <= 10 {
        assert u[3 + len] == ' ';
        assert s[i + 3 + len] == t[3 + len] == "components/"[len];
        assert s[i..i + |u|][3 + len] != u[3 + len];
      } else {
        assert u[13] == n[10] && IsNameChar(v, n[10]);
        assert s[i + 13] == t[13] == '/';
        assert s[i..i + |u|][13] != u[13];
      }
      assert s[i..i + |u|] != u;
    }
  }

  /** A placeholder keeps standing when text is put in front of it. */
  lemma OccursShiftUp(a: string, t: string, j: nat, p: Pattern, n: string)
    requires Occurs(t, j, p, n)
    ensures Occurs(a + t, |a| + j, p, n)
  {
    var u := Token(p, n);
    assert (a + t)[|a| + j..|a| + j + |u|] == t[j..j + |u|];
  }

  /** A placeholder keeps standing when text in front of it is cut off. */
  lemma OccursShiftDown(s: string, i: nat, d: nat, p: Pattern, n: string)
    requires d <= i && Occurs(s, i, p, n)
    ensures Occurs(s[d..], i - d, p, n)
  {
    var u := Token(p, n);
    assert s[d..][i - d..i - d + |u|] == s[i..i + |u|];
  }

  /** Replacing every placeholder for `m` keeps a placeholder for another name `u` in the text:
      either both are of one kind, or `m` names a component and `u` a variable. */
  lemma {:induction false} ReplaceKeepsPlaceholder(s: string, i: nat, q: Pattern, u: string,
                                                   p: Pattern, m: string, rep: string)
    requires WellFormed(p) && WellFormed(q) && IsName(p, m)
    requires (p == q && m != u) || (q.open == "{{ " && p.open == "{{ components/")
    requires Occurs(s, i, q, u)
    ensures Referenced(ReplaceAll(s, Token(p, m), rep), q, u)
    decreases |s|
  {
    var pat := Token(p, m);
    var r := ReplaceAll(s, pat, rep);
    if |s| < |pat| {
      assert Occurs(r, i, q, u);
    } else if s[..|pat|] == pat {
      assert Occurs(s, 0, p, m);
      if i == 0 {
        if p == q {
          MatchAtComplete(s, 0, p, m);
          MatchAtComplete(s, 0, p, u);
        } else {
          ComponentIsNotVariable(s, 0, q, p, m, u);
        }
        assert false;
      } else if i < |pat| {
        NoOverlap(s, 0, p, m, i, q, u);
        assert false;
      } else {
        var t := s[|pat|..];
        OccursShiftDown(s, i, |pat|, q, u);
        ReplaceKeepsPlaceholder(t, i - |pat|, q, u, p, m, rep);
        var j: nat :| Occurs(ReplaceAll(t, pat, rep), j, q, u);
        OccursShiftUp(rep, ReplaceAll(t, pat, rep), j, q, u);
      }
    } else if i == 0 {
      var len := |Token(q, u)|;
      forall j: nat | j < len ensures !OccursAt(s, j, pat) {
        if j > 0 {
          NoOverlap(s, 0, q, u, j, p, m);
        }
      }
      ReplaceAllUntouchedPrefix(s, pat, rep, len);
      assert r[..len] == s[..len];
      assert Occurs(r, 0, q, u);
    } else {
      var t := s[1..];
      OccursShiftDown(s, i, 1, q, u);
      ReplaceKeepsPlaceholder(t, i - 1, q, u, p, m, rep);
      var j: nat :| Occurs(ReplaceAll(t, pat, rep), j, q, u);
      OccursShiftUp([s[0]], ReplaceAll(t, pat, rep), j, q, u);
    }
  }

  /** Character `x` of a placeholder's text, read from the text it stands in. */
  lemma OccursChar(s: string, i: nat, p: Pattern, n: string, x: nat)
    requires Occurs(s, i, p, n) && x < |Token(p, n)|
    ensures s[i + x] == Token(p, n)[x]
  {
    assert s[i..i + |Token(p, n)|][x] == s[i + x];
  }

  /** The name sits right after the opening text. */
  lemma TokenName(p: Pattern, n: string, x: nat)
    requires x < |n|
    ensures |Token(p, n)| == |p.open| + |n| + 3
    ensures Token(p, n)[|p.open| + x] == n[x]
  {
  }

  /** The name is followed by a space. */
  lemma TokenSpace(p: Pattern, n: string)
    ensures |Token(p, n)| == |p.open| + |n| + 3
    ensures Token(p, n)[|p.open| + |n|] == ' '
  {
  }

  /** Two strings of one length differ once one position differs. */
  lemma SliceDiffers(s: string, i: nat, u: string, x: nat)
    requires i + |u| <= |s| && x < |u| && s[i + x] != u[x]
    ensures !OccursAt(s, i, u)
  {
    assert s[i..i + |u|][x] == s[i + x];
  }

  /** Where one placeholder stands, another whose text differs from it at some position does not. */
  lemma Mismatch(s: string, i: nat, q: Pattern, n: string, p: Pattern, m: string, x: nat)
    requires Occurs(s, i, q, n) && i + |Token(p, m)| <= |s|
    requires x < |Token(q, n)| && x < |Token(p, m)| && Token(q, n)[x] != Token(p, m)[x]
    ensures !OccursAt(s, i, Token(p, m))
  {
    OccursChar(s, i, q, n, x);
    SliceDiffers(s, i, Token(p, m), x);
  }

  /** Where the text holds a placeholder whose name contains `-`, a pattern whose names may not
      contain `-` matches nothing at that index. */
  lemma HyphenatedNameNotMatched(s: string, i: nat, p: Pattern, n: string, m: string)
    requires !p.hyphen
    requires Occurs(s, i, Pattern(p.open, true), n) && '-' in n
    ensures !Occurs(s, i, p, m)
  {
    var q := Pattern(p.open, true);
    TokenSpace(q, n);
    TokenSpace(p, m);
    if IsName(p, m) && i + |Token(p, m)| <= |s| {
      var o := |p.open|;
      if |m| < |n| {
        TokenName(q, n, |m|);
        assert IsNameChar(q, n[|m|]);
        Mismatch(s, i, q, n, p, m, o + |m|);
      } else if |m| > |n| {
        TokenName(p, m, |n|);
        assert IsNameChar(p, m[|n|]);
        Mismatch(s, i, q, n, p, m, o + |n|);
      } else {
        var j :| 0 <= j < |n| && n[j] == '-';
        TokenName(q, n, j);
        TokenName(p, m, j);
        assert IsNameChar(p, m[j]);
        Mismatch(s, i, q, n, p, m, o + j);
      }
    }
  }

  // ---------------------------------------------------------------------------------------------
  // captures_iter

  /** One match: where it starts and the name it captured. */
  datatype Capture = Capture(at: nat, name: string)

  /** `Regex::captures_iter` started at index `from`: the leftmost match, then the matches after
      its end. */
  function Scan(s: string, from: nat, p: Pattern): seq<Capture>
    requires from <= |s|
    decreases |s| - from
  {
    if from == |s| then []
    else
      match MatchAt(s, from, p)
      case Some(n) => [Capture(from, n)] + Scan(s, from + |Token(p, n)|, p)
      case None => Scan(s, from + 1, p)
  }

  /** One step of `captures_iter`. */
  lemma ScanStep(s: string, from: nat, p: Pattern)
    requires from < |s|
    ensures MatchAt(s, from, p).None? ==> Scan(s, from, p) == Scan(s, from + 1, p)
    ensures MatchAt(s, from, p).Some? ==>
              var n := MatchAt(s, from, p).value;
              Scan(s, from, p) == [Capture(from, n)] + Scan(s, from + |Token(p, n)|, p)
  {
  }

  lemma InTail<T>(x: T, tail: seq<T>, y: T)
    requires y in tail
    ensures y in [x] + tail
  {
  }

  /** Every match is a placeholder, and they come strictly left to right. */
  lemma {:induction false} ScanSound(s: string, from: nat, p: Pattern)
    requires from <= |s|
    ensures forall c :: c in Scan(s, from, p) ==> from <= c.at && Occurs(s, c.at, p, c.name)
    ensures forall a, b :: 0 <= a < b < |Scan(s, from, p)| ==>
              Scan(s, from, p)[a].at < Scan(s, from, p)[b].at
    decreases |s| - from
  {
    if from < |s| {
      match MatchAt(s, from, p)
      case Some(n) =>
        ScanSound(s, from + |Token(p, n)|, p);
      case None =>
        ScanSound(s, from + 1, p);
    }
  }

  /** Every placeholder at or after `from` is matched: none is hidden inside an earlier match. */
  lemma {:induction false} ScanComplete(s: string, from: nat, p: Pattern, i: nat, n: string)
    requires WellFormed(p) && from <= |s|
    requires from <= i && Occurs(s, i, p, n)
    ensures Capture(i, n) in Scan(s, from, p)
    decreases |s| - from
  {
    assert from < |s|;
    ScanStep(s, from, p);
    var r := MatchAt(s, from, p);
    if i == from {
      MatchAtComplete(s, i, p, n);
      assert Scan(s, from, p)[0] == Capture(i, n);
    } else if r.Some? {
      var next := from + |Token(p, r.value)|;
      if i < next {
        NoOverlap(s, from, p, r.value, i, p, n);
        assert false;
      }
      ScanComplete(s, next, p, i, n);
      InTail(Capture(from, r.value), Scan(s, next, p), Capture(i, n));
    } else {
      ScanComplete(s, from + 1, p, i, n);
    }
  }

  /** The captured names, in match order. */
  function Names(cs: seq<Capture>): (r: seq<string>)
    ensures |r| == |cs| && forall k :: 0 <= k < |cs| ==> r[k] == cs[k].name
  {
    seq(|cs|, k requires 0 <= k < |cs| => cs[k].name)
  }

  /** The captured names of a whole text are exactly the names it has placeholders for. */
  lemma ScanNames(s: string, p: Pattern)
    requires WellFormed(p)
    ensures forall n :: n in Names(Scan(s, 0, p)) <==> Referenced(s, p, n)
  {
    var cs := Scan(s, 0, p);
    ScanSound(s, 0, p);
    forall n ensures n in Names(cs) <==> Referenced(s, p, n) {
      if n in Names(cs) {
        var k :| 0 <= k < |cs| && Names(cs)[k] == n;
        assert cs[k] in cs;
      }
      if Referenced(s, p, n) {
        var i: nat :| Occurs(s, i, p, n);
        ScanComplete(s, 0, p, i, n);
        var k :| 0 <= k < |cs| && cs[k] == Capture(i, n);
        assert Names(cs)[k] == n;
      }
    }
  }

  // ---------------------------------------------------------------------------------------------
  // .sorted().dedup()

  ghost predicate StrictlySorted(xs: seq<string>)
  {
    forall i, j :: 0 <= i < j < |xs| ==> Less(xs[i], xs[j])
  }

  /** Puts `x` into its place in a strictly sorted list, unless it is there already. */
  function Insert(x: string, xs: seq<string>): (r: seq<string>)
    requires StrictlySorted(xs)
    ensures StrictlySorted(r)
    ensures forall y :: y in r <==> y == x || y in xs
    decreases |xs|
  {
    if xs == [] then [x]
    else if x == xs[0] then xs
    else if Less(x, xs[0]) then
      assert forall j :: 0 < j < |xs| ==> Less(x, xs[j]) by {
        forall j | 0 < j < |xs| ensures Less(x, xs[j]) { LessTransitive(x, xs[0], xs[j]); }
      }
      [x] + xs
    else
      LessTotal(x, xs[0]);
      var rest := Insert(x, xs[1..]);
      assert forall y :: y in rest ==> Less(xs[0], y);
      [xs[0]] + rest
  }

  /** `.sorted().dedup()`: the names, strictly sorted, each once. */
  function SortDedup(xs: seq<string>): (r: seq<string>)
    ensures StrictlySorted(r)
    ensures forall y :: y in r <==> y in xs
    decreases |xs|
  {
    if xs == [] then [] else Insert(xs[0], SortDedup(xs[1..]))
  }

  /** A strictly sorted list is determined by its elements, so `.sorted().dedup()` yields THE
      sorted list of the distinct names, whatever order they were found in. */
  lemma {:induction false} StrictlySortedUnique(a: seq<string>, b: seq<string>)
    requires StrictlySorted(a) && StrictlySorted(b)
    requires forall y :: y in a <==> y in b
    ensures a == b
    decreases |a|
  {
    assert a == [] <==> b == [] by {
      if a != [] { assert a[0] in b; }
      if b != [] { assert b[0] in a; }
    }
    if a != [] {
      assert a[0] == b[0] by {
        if a[0] != b[0] {
          assert a[0] in b && b[0] in a;
          var i :| 0 <= i < |a| && a[i] == b[0];
          var j :| 0 <= j < |b| && b[j] == a[0];
          assert Less(a[0], b[0]) && Less(b[0], a[0]);
          LessAsymmetric(a[0], b[0]);
          assert false;
        }
      }
      forall y ensures y in a[1..] <==> y in b[1..] {
        if y in a[1..] {
          var i :| 1 <= i < |a| && a[i] == y;
          assert Less(a[0], a[i]);
          LessIrreflexive(a[0]);
          assert y in b;
          var j :| 0 <= j < |b| && b[j] == y;
          assert j != 0;
          assert b[1..][j - 1] == y;
        }
        if y in b[1..] {
          var j :| 1 <= j < |b| && b[j] == y;
          assert Less(b[0], b[j]);
          LessIrreflexive(b[0]);
          assert y in a;
          var i :| 0 <= i < |a| && a[i] == y;
          assert i != 0;
          assert a[1..][i - 1] == y;
        }
      }
      StrictlySortedUnique(a[1..], b[1..]);
      assert a == [a[0]] + a[1..] && b == [b[0]] + b[1..];
    }
  }

  /** The builder's `extract_regex_captures`: the names of all placeholders of one kind, sorted and
      without duplicates. */
  function SortedNames(s: string, p: Pattern): (r: seq<string>)
    requires WellFormed(p)
    ensures StrictlySorted(r)
    ensures forall n :: n in r <==> Referenced(s, p, n)
  {
    ScanNames(s, p);
    SortDedup(Names(Scan(s, 0, p)))
  }
}
