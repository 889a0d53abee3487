/** String helpers with the meaning JavaScript gives them: the `\s` class
    (which is also what `String.prototype.trim` strips), `split(/\s+/)`,
    `indexOf` and the run of equal characters ending at a position. */
module Text {
  import opened Common

  /** `\s`: the ECMAScript WhiteSpace and LineTerminator code points. */
  predicate IsSpace(c: char) {
    || c == '\t' || c == '\n' || c == '\U{000B}' || c == '\U{000C}' || c == '\r' || c == ' '
    || c == '\U{00A0}' || c == '\U{1680}' || ('\U{2000}' <= c <= '\U{200A}')
    || c == '\U{2028}' || c == '\U{2029}' || c == '\U{202F}' || c == '\U{205F}'
    || c == '\U{3000}' || c == '\U{FEFF}'
  }

  /** The characters `.` does not match: the ECMAScript LineTerminators. */
  predicate IsLineTerminator(c: char) {
    c == '\n' || c == '\r' || c == '\U{2028}' || c == '\U{2029}'
  }

  function TrimStart(s: string): (r: string)
    ensures |r| <= |s| && r == s[|s| - |r|..]
    ensures r == [] || !IsSpace(r[0])
    ensures forall k | 0 <= k < |s| - |r| :: IsSpace(s[k])
    decreases |s|
  {
    if |s| > 0 && IsSpace(s[0]) then TrimStart(s[1..]) else s
  }

  function TrimEnd(s: string): (r: string)
    ensures |r| <= |s| && r == s[..|r|]
    ensures r == [] || !IsSpace(r[|r| - 1])
    ensures forall k | |r| <= k < |s| :: IsSpace(s[k])
    decreases |s|
  {
    if |s| > 0 && IsSpace(s[|s| - 1]) then TrimEnd(s[..|s| - 1]) else s
  }

  /** `s.trim()`: a stretch of `s` with no white space at either end, empty
      exactly when `s` is all white space. */
  function Trim(s: string): (r: string)
    ensures |r| <= |s|
    ensures r == [] || (!IsSpace(r[0]) && !IsSpace(r[|r| - 1]))
    ensures r == [] <==> forall k | 0 <= k < |s| :: IsSpace(s[k])
  {
    TrimEmptyIff(s);
    TrimEnd(TrimStart(s))
  }

  /** Trimming leaves nothing exactly when every character is white space. */
  lemma TrimEmptyIff(s: string)
    ensures TrimEnd(TrimStart(s)) == [] <==> forall k | 0 <= k < |s| :: IsSpace(s[k])
  {
    var t := TrimStart(s);
    var d := |s| - |t|;
    if TrimEnd(t) != [] {
      assert t[0] == TrimEnd(t)[0];
      assert s[d] == t[0];
    }
  }

  /** The first position at or after `i` that is not white space. */
  function SkipSpaces(s: string, i: nat): (j: nat)
    requires i <= |s|
    ensures i <= j <= |s| && (j == |s| || !IsSpace(s[j]))
    ensures forall k | i <= k < j :: IsSpace(s[k])
    decreases |s| - i
  {
    if i < |s| && IsSpace(s[i]) then SkipSpaces(s, i + 1) else i
  }

  /** `s[i..].split(/\s+/)`, the first piece starting with `cur`. */
  function SplitFrom(s: string, i: nat, cur: string): (r: seq<string>)
    requires i <= |s|
    requires forall c | c in cur :: !IsSpace(c)
    ensures |r| >= 1
    ensures forall w | w in r :: forall c | c in w :: !IsSpace(c)
    decreases |s| - i
  {
    if i == |s| then [cur]
    else if IsSpace(s[i]) then [cur] + SplitFrom(s, SkipSpaces(s, i), "")
    else SplitFrom(s, i + 1, cur + [s[i]])
  }

  /** `s.split(/\s+/)`: the pieces between maximal runs of white space; a
      leading or trailing run yields an empty first or last piece. */
  function SplitWords(s: string): (r: seq<string>)
    ensures |r| >= 1
    ensures forall w | w in r :: forall c | c in w :: !IsSpace(c)
  {
    SplitFrom(s, 0, "")
  }

  /** No character of `s` is white space. */
  predicate NoSpace(s: string) {
    forall c | c in s :: !IsSpace(c)
  }

  /** The UTF-16 code units a code point takes: two above U+FFFF (a
      surrogate pair), one otherwise. */
  function CodeUnits(c: char): (r: nat)
    ensures 1 <= r <= 2 && (r == 2 <==> c as int > 0xFFFF)
  {
    if c as int > 0xFFFF then 2 else 1
  }

  /** The UTF-16 code units of the first `n` code points of `s`. */
  function UnitsTo(s: string, n: nat): nat
    requires n <= |s|
  {
    if n == 0 then 0 else UnitsTo(s, n - 1) + CodeUnits(s[n - 1])
  }

  /** `s.length`: the number of UTF-16 code units of `s`. */
  function Units(s: string): nat {
    UnitsTo(s, |s|)
  }

  /** Every code point takes one or two code units. */
  lemma {:induction false} UnitsToBounds(s: string, n: nat)
    requires n <= |s|
    ensures n <= UnitsTo(s, n) <= 2 * n
    decreases n
  {
    if n > 0 {
      UnitsToBounds(s, n - 1);
    }
  }

  lemma UnitsBounds(s: string)
    ensures |s| <= Units(s) <= 2 * |s|
  {
    UnitsToBounds(s, |s|);
  }

  /** A prefix counts the code units of the text it is a prefix of. */
  lemma {:induction false} UnitsToPrefix(s: string, t: string, n: nat)
    requires n <= |s| && n <= |t| && s[..n] == t[..n]
    ensures UnitsTo(s, n) == UnitsTo(t, n)
    decreases n
  {
    if n > 0 {
      assert s[n - 1] == s[..n][n - 1] == t[..n][n - 1] == t[n - 1];
      assert s[..n - 1] == s[..n][..n - 1] == t[..n][..n - 1] == t[..n - 1];
      UnitsToPrefix(s, t, n - 1);
    }
  }

  lemma UnitsPrefix(s: string, n: nat)
    requires n <= |s|
    ensures Units(s[..n]) == UnitsTo(s, n)
  {
    assert s[..n][..n] == s[..n];
    UnitsToPrefix(s[..n], s, n);
  }

  /** Code units add up over a concatenation. */
  lemma {:induction false} UnitsToConcat(a: string, b: string, k: nat)
    requires k <= |b|
    ensures UnitsTo(a + b, |a| + k) == Units(a) + UnitsTo(b, k)
    decreases k
  {
    if k > 0 {
      UnitsToConcat(a, b, k - 1);
      assert (a + b)[|a| + k - 1] == b[k - 1];
    } else {
      assert (a + b)[..|a|] == a[..|a|];
      UnitsToPrefix(a + b, a, |a|);
    }
  }

  lemma UnitsConcat(a: string, b: string)
    ensures Units(a + b) == Units(a) + Units(b)
  {
    UnitsToConcat(a, b, |b|);
  }

  /** Text of code points up to U+FFFF has one code unit per character. */
  lemma {:induction false} UnitsToBmp(s: string, n: nat)
    requires n <= |s| && forall k | 0 <= k < |s| :: s[k] as int <= 0xFFFF
    ensures UnitsTo(s, n) == n
    decreases n
  {
    if n > 0 {
      UnitsToBmp(s, n - 1);
    }
  }

  lemma UnitsBmp(s: string)
    requires forall k | 0 <= k < |s| :: s[k] as int <= 0xFFFF
    ensures Units(s) == |s|
  {
    UnitsToBmp(s, |s|);
  }

  /** Text of code points above U+FFFF (emoji and the like) has two code
      units per character. */
  lemma {:induction false} UnitsToAstral(s: string, n: nat)
    requires n <= |s| && forall k | 0 <= k < |s| :: s[k] as int > 0xFFFF
    ensures UnitsTo(s, n) == 2 * n
    decreases n
  {
    if n > 0 {
      UnitsToAstral(s, n - 1);
    }
  }

  lemma UnitsAstral(s: string)
    requires forall k | 0 <= k < |s| :: s[k] as int > 0xFFFF
    ensures Units(s) == 2 * |s|
  {
    UnitsToAstral(s, |s|);
  }

  /** From `n` on, the most code points of `s` whose code units fit in
      `budget`. */
  function FitFrom(s: string, budget: nat, n: nat): (r: nat)
    requires n <= |s| && UnitsTo(s, n) <= budget
    ensures n <= r <= |s| && UnitsTo(s, r) <= budget
    ensures r < |s| ==> UnitsTo(s, r + 1) > budget
    decreases |s| - n
  {
    if n < |s| && UnitsTo(s, n + 1) <= budget then FitFrom(s, budget, n + 1) else n
  }

  /** The number of leading code points of `s` whose code units fit in
      `budget`: `s.slice(0, budget)` without a trailing half of a
      surrogate pair. */
  function Fit(s: string, budget: nat): (n: nat)
    ensures n <= |s| && Units(s[..n]) <= budget
    ensures n < |s| ==> Units(s[..n + 1]) > budget
    ensures Units(s) <= budget ==> n == |s|
  {
    var n := FitFrom(s, budget, 0);
    UnitsPrefix(s, n);
    if n < |s| then
      UnitsPrefix(s, n + 1);
      UnitsMonotone(s, n + 1, |s|);
      n
    else
      n
  }

  /** A longer prefix takes at least as many code units. */
  lemma {:induction false} UnitsMonotone(s: string, m: nat, n: nat)
    requires m <= n <= |s|
    ensures UnitsTo(s, m) <= UnitsTo(s, n)
    decreases n - m
  {
    if m < n {
      UnitsMonotone(s, m, n - 1);
    }
  }

  /** `pieces` with `gaps[k]` put back between `pieces[k]` and
      `pieces[k + 1]`. */
  function Weave(pieces: seq<string>, gaps: seq<string>): string
    requires |pieces| == |gaps| + 1
    decreases |gaps|
  {
    if gaps == [] then pieces[0] else pieces[0] + gaps[0] + Weave(pieces[1..], gaps[1..])
  }

  /** Every gap is a non-empty run of white space. */
  predicate SpaceRuns(gaps: seq<string>) {
    forall g | g in gaps :: g != [] && forall c | c in g :: IsSpace(c)
  }

  /** The maximal runs of white space in `s[i..]`, in order. */
  function GapsFrom(s: string, i: nat): seq<string>
    requires i <= |s|
    decreases |s| - i
  {
    if i == |s| then []
    else if IsSpace(s[i]) then [s[i..SkipSpaces(s, i)]] + GapsFrom(s, SkipSpaces(s, i))
    else GapsFrom(s, i + 1)
  }

  /** `text` is `pieces` with the non-empty white-space runs `gaps` put
      back between them, and every piece but the first and the last is
      non-empty. */
  predicate SplitShape(pieces: seq<string>, gaps: seq<string>, text: string) {
    && |pieces| == |gaps| + 1 && SpaceRuns(gaps) && Weave(pieces, gaps) == text
    && forall k | 0 < k < |pieces| - 1 :: pieces[k] != []
  }

  lemma {:induction false} SplitFromRebuilds(s: string, i: nat, cur: string)
    requires i <= |s|
    requires forall c | c in cur :: !IsSpace(c)
    ensures SplitShape(SplitFrom(s, i, cur), GapsFrom(s, i), cur + s[i..])
    ensures cur != [] || (i < |s| && !IsSpace(s[i])) ==> SplitFrom(s, i, cur)[0] != []
    decreases |s| - i
  {
    if i == |s| {
      assert cur + s[i..] == cur;
    } else if IsSpace(s[i]) {
      var j := SkipSpaces(s, i);
      SplitFromRebuilds(s, j, "");
      assert "" + s[j..] == s[j..];
      SplitAtSpace(s, i, j, cur, SplitFrom(s, j, ""), GapsFrom(s, j));
    } else {
      SplitFromRebuilds(s, i + 1, cur + [s[i]]);
      assert cur + [s[i]] + s[i + 1..] == cur + s[i..];
    }
  }

  /** The step of `SplitFromRebuilds` at a white-space run `s[i..j]`. */
  lemma SplitAtSpace(s: string, i: nat, j: nat, cur: string, rest: seq<string>, gs: seq<string>)
    requires i < j <= |s| && j == SkipSpaces(s, i)
    requires rest == SplitFrom(s, j, "") && gs == GapsFrom(s, j)
    requires SplitShape(rest, gs, s[j..]) && (j < |s| ==> rest[0] != [])
    ensures SplitShape([cur] + rest, [s[i..j]] + gs, cur + s[i..])
  {
    var r, g := [cur] + rest, [s[i..j]] + gs;
    assert r[1..] == rest && g[1..] == gs;
    assert Weave(r, g) == cur + s[i..j] + s[j..];
    assert s[i..] == s[i..j] + s[j..];
    assert SpaceRuns(g) by {
      assert s[i..j] != [] && forall c | c in s[i..j] :: IsSpace(c);
    }
    forall k | 0 < k < |r| - 1 ensures r[k] != [] {
      assert r[k] == rest[k - 1];
    }
  }
  /** `split(/\s+/)` loses only the white space: some non-empty runs of
      white space put back between the pieces give `s` again, and every
      piece but the first and the last is non-empty, so the pieces are
      exactly those between the maximal runs. */
  lemma SplitWordsRebuilds(s: string)
    ensures exists gaps :: SplitShape(SplitWords(s), gaps, s)
  {
    SplitFromRebuilds(s, 0, "");
    assert "" + s[0..] == s;
    assert SplitShape(SplitWords(s), GapsFrom(s, 0), s);
  }

  /** `pat` occurs in `t` at position `k`. */
  predicate OccursAt(t: string, pat: string, k: nat) {
    k + |pat| <= |t| && t[k..k + |pat|] == pat
  }

  /** `t.indexOf(pat, from)`, as an option: the first occurrence at or
      after `from`. */
  function IndexOf(t: string, pat: string, from: nat): (r: Option<nat>)
    decreases |t| - from
    ensures r.Some? ==> from <= r.value && OccursAt(t, pat, r.value)
    ensures r.Some? ==> forall k | from <= k < r.value :: !OccursAt(t, pat, k)
    ensures r.None? ==> forall k | from <= k :: !OccursAt(t, pat, k)
  {
    if from + |pat| > |t| then None
    else if t[from..from + |pat|] == pat then Some(from)
    else IndexOf(t, pat, from + 1)
  }

  /** The length of the run of copies of `s[j]` that ends at `j`. */
  function RunBack<T(==)>(s: seq<T>, j: nat): (r: nat)
    requires j < |s|
    ensures 1 <= r <= j + 1
  {
    if j > 0 && s[j - 1] == s[j] then RunBack(s, j - 1) + 1 else 1
  }

  /** `n` copies of `s[i]` start at `i`, and `s[i]` is a character `.`
      matches. */
  predicate RunAt(s: string, i: nat, n: nat) {
    && i < |s| && i + n <= |s| && !IsLineTerminator(s[i])
    && forall k | i <= k < i + n :: s[k] == s[i]
  }

  /** A run of at least `n` equal characters ending at `j` is exactly a
      window of `n` copies of `s[j]` ending there. */
  lemma {:induction false} RunBackWindow<T>(s: seq<T>, j: nat, n: nat)
    requires j < |s| && 1 <= n <= j + 1
    ensures RunBack(s, j) >= n <==> forall k | j + 1 - n <= k <= j :: s[k] == s[j]
    decreases n
  {
    if n > 1 {
      if j > 0 && s[j - 1] == s[j] {
        RunBackWindow(s, j - 1, n - 1);
      } else {
        assert s[j - 1] != s[j];
      }
    }
  }

  /** `RunBack` looks only backwards: a prefix sees the same runs. */
  lemma {:induction false} RunBackPrefix<T>(s: seq<T>, n: nat, j: nat)
    requires j < n <= |s|
    ensures RunBack(s[..n], j) == RunBack(s, j)
    decreases j
  {
    if j > 0 {
      RunBackPrefix(s, n, j - 1);
    }
  }
}
