/** `extract_urls` and `restore_urls`: URLs are swapped for `[URL_k]`
    placeholders while the other checks run, and swapped back afterwards.
    The URL pattern is `/(@?https?:\/\/[^\s]+)/gi`. */
module UrlMasking {
  import opened Common
  import opened Text

  // ---------------------------------------------------------------------
  // Placeholders
  // ---------------------------------------------------------------------

  function Digit(d: nat): (c: char)
    requires d < 10
    ensures '0' <= c <= '9'
  {
    "0123456789"[d]
  }

  /** The decimal form of `n`, as template literals print it. */
  function Decimal(n: nat): (r: string)
    ensures 1 <= |r| && (n < 10 ==> |r| == 1) && (n < 100 ==> |r| <= 2)
    ensures forall k | 0 <= k < |r| :: '0' <= r[k] <= '9'
  {
    if n < 10 then [Digit(n)] else Decimal(n / 10) + [Digit(n % 10)]
  }

  /** What every placeholder starts with. */
  const Marker: string := "[URL_"

  /** The placeholder of the k-th URL: the marker, then only digits and a
      closing bracket, so it is at least 7 characters long, and at most 8
      below 100. */
  function Tag(k: nat): (r: string)
    ensures 7 <= |r| && (k < 100 ==> |r| <= 8)
    ensures r[..5] == Marker && r[0] == '[' && r[|r| - 1] == ']'
    ensures forall i | 5 <= i < |r| - 1 :: '0' <= r[i] <= '9'
  {
    Marker + Decimal(k) + "]"
  }

  /** The placeholders `[URL_n]` .. `[URL_(n+count-1)]`. */
  function Tags(n: nat, count: nat): (r: seq<string>)
    ensures |r| == count && forall k | 0 <= k < count :: r[k] == Tag(n + k)
    decreases count
  {
    if count == 0 then []
    else
      var rest := Tags(n + 1, count - 1);
      assert forall k | 1 <= k < count :: ([Tag(n)] + rest)[k] == rest[k - 1];
      [Tag(n)] + rest
  }

  /** The placeholders from `n` on are `Tag(n)` followed by those from
      `n + 1` on. */
  lemma TagsCons(n: nat, count: nat)
    ensures Tags(n, count + 1) == [Tag(n)] + Tags(n + 1, count)
  {
  }

  /** `s` holds no placeholder-like text. */
  predicate NoMarker(s: string) {
    forall k: nat | k <= |s| :: !OccursAt(s, Marker, k)
  }

  // ---------------------------------------------------------------------
  // The URL pattern
  // ---------------------------------------------------------------------

  /** `c` is the ASCII letter `lower` in either case (the `i` flag without
      `u` folds no non-ASCII character onto an ASCII one). */
  predicate Letter(c: char, lower: char)
    requires 'a' <= lower <= 'z'
  {
    c == lower || c as int == lower as int - 32
  }

  /** Where `https?:\/\/` ends when it matches at `p`. */
  function SchemeEnd(s: string, p: nat): (r: Option<nat>)
    ensures r.Some? ==> p + 7 <= r.value <= |s|
  {
    if p + 4 <= |s| && Letter(s[p], 'h') && Letter(s[p + 1], 't') && Letter(s[p + 2], 't') && Letter(s[p + 3], 'p') then
      var q := if p + 4 < |s| && Letter(s[p + 4], 's') then p + 5 else p + 4;
      if q + 3 <= |s| && s[q..q + 3] == "://" then
        assert s[q] == ':' && s[q + 1] == '/' && s[q + 2] == '/';
        Some(q + 3)
      else None
    else None
  }

  /** The end of the run of non-white-space characters starting at `i`. */
  function NonSpaceEnd(s: string, i: nat): (j: nat)
    requires i <= |s|
    ensures i <= j <= |s| && (j == |s| || IsSpace(s[j]))
    ensures forall k | i <= k < j :: !IsSpace(s[k])
    decreases |s| - i
  {
    if i < |s| && !IsSpace(s[i]) then NonSpaceEnd(s, i + 1) else i
  }

  /** Where a URL match starting at `i` ends, if one starts there: an
      optional `@`, the scheme, then the longest non-empty run of
      non-white-space characters. */
  function UrlEnd(s: string, i: nat): (r: Option<nat>)
    ensures r.Some? ==> i + 8 <= r.value <= |s|
  {
    var p := if i < |s| && s[i] == '@' then i + 1 else i;
    match SchemeEnd(s, p)
    case Some(b) =>
      if b < |s| && !IsSpace(s[b]) then Some(NonSpaceEnd(s, b)) else None
    case None => None
  }

  /** A match is the longest stretch without white space from its start:
      it holds none, and white space or the end of the text follows it. */
  lemma UrlEndShape(s: string, i: nat)
    requires UrlEnd(s, i).Some?
    ensures forall k | i <= k < UrlEnd(s, i).value :: !IsSpace(s[k])
    ensures UrlEnd(s, i).value == |s| || IsSpace(s[UrlEnd(s, i).value])
  {
    var p := if i < |s| && s[i] == '@' then i + 1 else i;
    var b := SchemeEnd(s, p).value;
    forall k | i <= k < b ensures !IsSpace(s[k]) {
      assert k == i || p <= k;
      if p <= k < p + 4 {
        assert Letter(s[k], "http"[k - p]);
      } else if p + 4 <= k < b - 3 {
        assert Letter(s[k], 's');
      } else if b - 3 <= k {
        assert s[b - 3..b] == "://";
        assert s[k] == "://"[k - (b - 3)];
      }
    }
  }

  /** The global scan of `s[i..]`: the text between matches (one more piece
      than there are matches) and the matches, both in order. */
  function Scan(s: string, i: nat): (r: (seq<string>, seq<string>))
    requires i <= |s|
    ensures |r.0| == |r.1| + 1
    decreases |s| - i
  {
    if i == |s| then ([""], [])
    else match UrlEnd(s, i)
      case Some(e) =>
        var rest := Scan(s, e);
        ([""] + rest.0, [s[i..e]] + rest.1)
      case None =>
        var rest := Scan(s, i + 1);
        ([[s[i]] + rest.0[0]] + rest.0[1..], rest.1)
  }

  /** `u[0] + pieces[0] + u[1] + pieces[1] + ...` */
  function Alternate(pieces: seq<string>, u: seq<string>): string
    requires |pieces| == |u|
    decreases |pieces|
  {
    if pieces == [] then "" else u[0] + pieces[0] + Alternate(pieces[1..], u[1..])
  }

  /** The text pieces with `u[k]` put back between pieces `k` and `k+1`. */
  function Interleave(pieces: seq<string>, u: seq<string>): string
    requires |pieces| == |u| + 1
  {
    pieces[0] + Alternate(pieces[1..], u)
  }

  /** The URLs `extract_urls` finds, in order. */
  function UrlsOf(s: string): seq<string> {
    Scan(s, 0).1
  }

  /** The masked form of `s[i..]`, numbering placeholders from `n`. */
  function MaskedFrom(s: string, i: nat, n: nat): string
    requires i <= |s|
  {
    var r := Scan(s, i);
    Interleave(r.0, Tags(n, |r.1|))
  }

  /** The `processed_message` of `extract_urls`. */
  function Masked(s: string): string {
    MaskedFrom(s, 0, 0)
  }

  // ---------------------------------------------------------------------
  // Extraction
  // ---------------------------------------------------------------------

  lemma InterleaveUrl(u: string, pieces: seq<string>, urls: seq<string>)
    requires |pieces| == |urls| + 1
    ensures Interleave([""] + pieces, [u] + urls) == u + Interleave(pieces, urls)
  {
    var ps := [""] + pieces;
    assert ps[1..] == pieces && ps[1..][1..] == pieces[1..];
  }

  lemma InterleaveChar(c: char, pieces: seq<string>, urls: seq<string>)
    requires |pieces| == |urls| + 1
    ensures Interleave([[c] + pieces[0]] + pieces[1..], urls) == [c] + Interleave(pieces, urls)
  {
    var ps := [[c] + pieces[0]] + pieces[1..];
    assert ps[1..] == pieces[1..];
  }

  /** The scan cuts `s` without loss: putting the matches back between the
      pieces gives `s` again. */
  lemma {:induction false} ScanExact(s: string, i: nat)
    requires i <= |s|
    ensures Interleave(Scan(s, i).0, Scan(s, i).1) == s[i..]
    decreases |s| - i
  {
    if i < |s| {
      match UrlEnd(s, i)
      case Some(e) =>
        ScanExact(s, e);
        var rest := Scan(s, e);
        InterleaveUrl(s[i..e], rest.0, rest.1);
        assert s[i..] == s[i..e] + s[e..];
      case None =>
        ScanExact(s, i + 1);
        var rest := Scan(s, i + 1);
        InterleaveChar(s[i], rest.0, rest.1);
        assert s[i..] == [s[i]] + s[i + 1..];
    }
  }

  /** Every URL found is at least 8 characters long. */
  lemma {:induction false} ScanUrls(s: string, i: nat)
    requires i <= |s|
    ensures forall k | 0 <= k < |Scan(s, i).1| :: |Scan(s, i).1[k]| >= 8
    decreases |s| - i
  {
    if i < |s| {
      match UrlEnd(s, i)
      case Some(e) =>
        ScanUrls(s, e);
      case None =>
        ScanUrls(s, i + 1);
    }
  }

  /** A URL at `i` becomes placeholder `n`. */
  lemma MaskStepUrl(s: string, i: nat, n: nat, e: nat)
    requires i < |s| && UrlEnd(s, i) == Some(e)
    ensures MaskedFrom(s, i, n) == Tag(n) + MaskedFrom(s, e, n + 1)
    ensures Scan(s, i).1 == [s[i..e]] + Scan(s, e).1
  {
    var next := Scan(s, e);
    assert Scan(s, i) == ([""] + next.0, [s[i..e]] + next.1);
    TagsCons(n, |next.1|);
    InterleaveUrl(Tag(n), next.0, Tags(n + 1, |next.1|));
  }

  /** Any other character is kept. */
  lemma MaskStepChar(s: string, i: nat, n: nat)
    requires i < |s| && UrlEnd(s, i).None?
    ensures MaskedFrom(s, i, n) == [s[i]] + MaskedFrom(s, i + 1, n)
    ensures Scan(s, i).1 == Scan(s, i + 1).1
  {
    var next := Scan(s, i + 1);
    InterleaveChar(s[i], next.0, Tags(n, |next.1|));
  }

  /** After the scan reached `i`, `processed` and `urls` hold what the
      replace produced so far. */
  ghost predicate ExtractedUpTo(message: string, i: nat, processed: string, urls: seq<string>,
                                masked: string, found: seq<string>) {
    && i <= |message|
    && processed + MaskedFrom(message, i, |urls|) == masked
    && urls + Scan(message, i).1 == found
  }

  /** The scan at its end, and the masking of nothing. */
  lemma MaskEnd(s: string, n: nat)
    ensures Scan(s, |s|) == ([""], []) && MaskedFrom(s, |s|, n) == ""
  {
  }

  /** A match at `i` is pushed and its placeholder emitted. */
  lemma ExtractedUrl(message: string, i: nat, processed: string, urls: seq<string>, e: nat,
                     masked: string, found: seq<string>)
    requires i < |message| && UrlEnd(message, i) == Some(e) && ExtractedUpTo(message, i, processed, urls, masked, found)
    ensures ExtractedUpTo(message, e, processed + Tag(|urls|), urls + [message[i..e]], masked, found)
  {
    MaskStepUrl(message, i, |urls|, e);
    var rest := MaskedFrom(message, e, |urls| + 1);
    assert processed + (Tag(|urls|) + rest) == (processed + Tag(|urls|)) + rest;
    var later := Scan(message, e).1;
    assert urls + ([message[i..e]] + later) == (urls + [message[i..e]]) + later;
  }

  /** Any other character is copied. */
  lemma ExtractedChar(message: string, i: nat, processed: string, urls: seq<string>,
                      masked: string, found: seq<string>)
    requires i < |message| && UrlEnd(message, i).None? && ExtractedUpTo(message, i, processed, urls, masked, found)
    ensures ExtractedUpTo(message, i + 1, processed + [message[i]], urls, masked, found)
  {
    MaskStepChar(message, i, |urls|);
    var rest := MaskedFrom(message, i + 1, |urls|);
    assert processed + ([message[i]] + rest) == (processed + [message[i]]) + rest;
  }

  /** `extract_urls(message)`: a global replace whose callback pushes each
      match and returns its placeholder. */
  method ExtractUrls(message: string) returns (processed: string, urls: seq<string>)
    ensures processed == Masked(message) && urls == UrlsOf(message)
  {
    processed, urls := "", [];
    var i := 0;
    ghost var masked, found := Masked(message), UrlsOf(message);
    while i < |message|
      invariant ExtractedUpTo(message, i, processed, urls, masked, found)
      decreases |message| - i
    {
      var end := UrlEnd(message, i);
      if end.Some? {
        ExtractedUrl(message, i, processed, urls, end.value, masked, found);
        processed, urls, i := processed + Tag(|urls|), urls + [message[i..end.value]], end.value;
      } else {
        ExtractedChar(message, i, processed, urls, masked, found);
        processed, i := processed + [message[i]], i + 1;
      }
    }
    MaskEnd(message, |urls|);
  }

  // ---------------------------------------------------------------------
  // Restoring
  // ---------------------------------------------------------------------

  /** `t.replace(pat, rep)` with `rep` taken literally: the first
      occurrence, if any, is replaced. */
  function ReplaceFirst(t: string, pat: string, rep: string): (r: string)
    ensures IndexOf(t, pat, 0).None? ==> r == t
    ensures IndexOf(t, pat, 0).Some? ==> |r| == |t| - |pat| + |rep|
  {
    match IndexOf(t, pat, 0)
    case Some(k) => t[..k] + rep + t[k + |pat|..]
    case None => t
  }

  /** Restoring placeholders `i` onwards, one first occurrence at a time. */
  function RestoreFrom(t: string, urls: seq<string>, i: nat): string
    requires i <= |urls|
    decreases |urls| - i
  {
    if i == |urls| then t else RestoreFrom(ReplaceFirst(t, Tag(i), urls[i]), urls, i + 1)
  }

  function Restored(t: string, urls: seq<string>): string {
    RestoreFrom(t, urls, 0)
  }

  /** `restore_urls(processed, urls)`, with the replacement taken literally
      (see `RestoredAsWritten` for the source's own call). */
  method RestoreUrls(processed: string, urls: seq<string>) returns (restored: string)
    ensures restored == Restored(processed, urls)
  {
    restored := processed;
    var i := 0;
    while i < |urls|
      invariant i <= |urls|
      invariant RestoreFrom(restored, urls, i) == Restored(processed, urls)
    {
      restored := ReplaceFirst(restored, Tag(i), urls[i]);
      i := i + 1;
    }
  }

  /** Splitting an alternation after `j` pairs. */
  lemma {:induction false} AlternateSplit(pieces: seq<string>, u: seq<string>, j: nat)
    requires |pieces| == |u| && j <= |pieces|
    ensures Alternate(pieces, u) == Alternate(pieces[..j], u[..j]) + Alternate(pieces[j..], u[j..])
    decreases j
  {
    if j > 0 {
      AlternateSplit(pieces[1..], u[1..], j - 1);
      assert pieces[1..][..j - 1] == pieces[..j][1..];
      assert u[1..][..j - 1] == u[..j][1..];
      assert pieces[1..][j - 1..] == pieces[j..];
      assert u[1..][j - 1..] == u[j..];
    }
  }

  /** A prefix of a text without placeholders has none either. */
  lemma NoMarkerPrefix(s: string, n: nat)
    requires NoMarker(s) && n <= |s|
    ensures NoMarker(s[..n])
  {
    forall k: nat | k <= n ensures !OccursAt(s[..n], Marker, k) {
      if k + 5 <= n {
        assert s[..n][k..k + 5] == s[k..k + 5];
        assert !OccursAt(s, Marker, k);
      }
    }
  }

  /** With no placeholder text in `p`, the first occurrence of a
      placeholder in `p + Tag(k) + rest` is the one right after `p`: no
      proper suffix of the marker is a prefix of it. */
  lemma FirstTag(p: string, k: nat, rest: string)
    requires NoMarker(p)
    ensures IndexOf(p + Tag(k) + rest, Tag(k), 0) == Some(|p|)
  {
    var t, tag := p + Tag(k) + rest, Tag(k);
    assert t[|p|..|p| + |tag|] == tag;
    assert OccursAt(t, tag, |p|);
    forall j | 0 <= j < |p| ensures !OccursAt(t, tag, j) {
      assert t[j..j + |tag|][..5] == t[j..j + 5];
      if j + 5 <= |p| {
        assert p[j..j + 5] == t[j..j + 5];
        assert !OccursAt(p, Marker, j);
      } else {
        var d := |p| - j;
        assert t[j..j + |tag|][d] == t[|p|] == '[';
        assert tag[..5][d] == Marker[d] != '[';
      }
    }
    var r := IndexOf(t, tag, 0);
  }

  /** Restoring the placeholders of `Masked(s)` gives back `s`, provided
      `s` holds no placeholder-like text of its own. */
  lemma RestoreInverse(s: string)
    requires NoMarker(s)
    ensures Restored(Masked(s), UrlsOf(s)) == s
  {
    var pieces, urls := Scan(s, 0).0, Scan(s, 0).1;
    var tags := Tags(0, |urls|);
    ScanExact(s, 0);
    assert s[0..] == s;
    RestoreSteps(s, pieces, urls, tags, 0);
    assert Interleave(pieces[..1], urls[..0]) == pieces[0];
    assert pieces[1..] == pieces[0 + 1..] && tags == tags[0..];
    assert Midway(pieces, urls, tags, 0) == Masked(s);
  }

  /** The first `i` URLs with the pieces around them form a prefix of the
      whole interleaving. */
  lemma InterleavePrefix(pieces: seq<string>, urls: seq<string>, i: nat)
    requires |pieces| == |urls| + 1 && i <= |urls|
    ensures Interleave(pieces, urls) == Interleave(pieces[..i + 1], urls[..i]) + Alternate(pieces[i + 1..], urls[i..])
  {
    AlternateSplit(pieces[1..], urls, i);
    assert pieces[1..][..i] == pieces[..i + 1][1..];
    assert pieces[1..][i..] == pieces[i + 1..];
  }

  /** The prefix grows by one URL and the piece after it. */
  lemma InterleaveGrow(pieces: seq<string>, urls: seq<string>, i: nat)
    requires |pieces| == |urls| + 1 && i < |urls|
    ensures Interleave(pieces[..i + 2], urls[..i + 1]) == Interleave(pieces[..i + 1], urls[..i]) + urls[i] + pieces[i + 1]
  {
    InterleavePrefix(pieces[..i + 2], urls[..i + 1], i);
    assert pieces[..i + 2][..i + 1] == pieces[..i + 1];
    assert urls[..i + 1][..i] == urls[..i];
    assert pieces[..i + 2][i + 1..] == [pieces[i + 1]];
    assert urls[..i + 1][i..] == [urls[i]];
  }

  /** The text after `i` placeholders were restored: the first `i` URLs
      are back, the rest still masked. */
  function Midway(pieces: seq<string>, urls: seq<string>, tags: seq<string>, i: nat): string
    requires |pieces| == |urls| + 1 && |tags| == |urls| && i <= |urls|
  {
    Interleave(pieces[..i + 1], urls[..i]) + Alternate(pieces[i + 1..], tags[i..])
  }

  /** Replacing the first placeholder `k` after a placeholder-free `p`. */
  lemma ReplaceAfter(p: string, k: nat, rest: string, u: string)
    requires NoMarker(p)
    ensures ReplaceFirst(p + Tag(k) + rest, Tag(k), u) == p + u + rest
  {
    var t := p + Tag(k) + rest;
    FirstTag(p, k, rest);
    assert t[..|p|] == p;
    assert t[|p| + |Tag(k)|..] == rest;
  }

  /** Restoring placeholder `i` replaces the one the masking put there,
      when the text restored so far holds no placeholder. */
  lemma RestoreOne(pieces: seq<string>, urls: seq<string>, tags: seq<string>, i: nat)
    requires |pieces| == |urls| + 1 && |tags| == |urls| && i < |urls| && tags[i] == Tag(i)
    requires NoMarker(Interleave(pieces[..i + 1], urls[..i]))
    ensures ReplaceFirst(Midway(pieces, urls, tags, i), Tag(i), urls[i]) == Midway(pieces, urls, tags, i + 1)
  {
    var p := Interleave(pieces[..i + 1], urls[..i]);
    var rest := pieces[i + 1] + Alternate(pieces[i + 2..], tags[i + 1..]);
    MidwayAt(pieces, urls, tags, i);
    ReplaceAfter(p, i, rest, urls[i]);
    MidwayNext(pieces, urls, tags, i);
  }

  /** After placeholder `i` is restored, its URL stands between the
      restored prefix and the rest. */
  lemma MidwayNext(pieces: seq<string>, urls: seq<string>, tags: seq<string>, i: nat)
    requires |pieces| == |urls| + 1 && |tags| == |urls| && i < |urls|
    ensures Midway(pieces, urls, tags, i + 1) ==
            Interleave(pieces[..i + 1], urls[..i]) + urls[i] + (pieces[i + 1] + Alternate(pieces[i + 2..], tags[i + 1..]))
  {
    InterleaveGrow(pieces, urls, i);
  }

  /** Midway, placeholder `i` is next: the restored prefix, `Tag(i)`, then
      the rest still masked. */
  lemma MidwayAt(pieces: seq<string>, urls: seq<string>, tags: seq<string>, i: nat)
    requires |pieces| == |urls| + 1 && |tags| == |urls| && i < |urls|
    ensures Midway(pieces, urls, tags, i) ==
            Interleave(pieces[..i + 1], urls[..i]) + tags[i] + (pieces[i + 1] + Alternate(pieces[i + 2..], tags[i + 1..]))
  {
    assert pieces[i + 1..][1..] == pieces[i + 2..] && tags[i..][1..] == tags[i + 1..];
    assert pieces[i + 1..][0] == pieces[i + 1] && tags[i..][0] == tags[i];
  }

  /** The restored prefix is a prefix of `s`, so it holds no placeholder. */
  lemma RestoredPrefixClean(s: string, pieces: seq<string>, urls: seq<string>, i: nat)
    requires NoMarker(s) && |pieces| == |urls| + 1 && i < |urls|
    requires Interleave(pieces, urls) == s
    ensures NoMarker(Interleave(pieces[..i + 1], urls[..i]))
  {
    var p := Interleave(pieces[..i + 1], urls[..i]);
    InterleavePrefix(pieces, urls, i);
    assert s[..|p|] == p;
    NoMarkerPrefix(s, |p|);
  }

  /** Restoring from any midway point goes on to `s`. */
  lemma {:induction false} RestoreSteps(s: string, pieces: seq<string>, urls: seq<string>, tags: seq<string>, i: nat)
    requires NoMarker(s) && |pieces| == |urls| + 1 && tags == Tags(0, |urls|) && i <= |urls|
    requires Interleave(pieces, urls) == s
    ensures RestoreFrom(Midway(pieces, urls, tags, i), urls, i) == s
    decreases |urls| - i
  {
    if i == |urls| {
      assert pieces[..i + 1] == pieces && urls[..i] == urls;
      assert pieces[i + 1..] == [];
    } else {
      RestoredPrefixClean(s, pieces, urls, i);
      RestoreOne(pieces, urls, tags, i);
      RestoreSteps(s, pieces, urls, tags, i + 1);
    }
  }

  // ---------------------------------------------------------------------
  // Lengths
  // ---------------------------------------------------------------------

  function SumLens(ss: seq<string>): nat
    decreases |ss|
  {
    if ss == [] then 0 else |ss[0]| + SumLens(ss[1..])
  }

  lemma {:induction false} AlternateLength(pieces: seq<string>, u: seq<string>)
    requires |pieces| == |u|
    ensures |Alternate(pieces, u)| == SumLens(pieces) + SumLens(u)
    decreases |pieces|
  {
    if pieces != [] {
      AlternateLength(pieces[1..], u[1..]);
    }
  }

  /** Masking swaps the length of the URLs for that of their placeholders. */
  lemma MaskedLength(s: string)
    ensures |Masked(s)| + SumLens(UrlsOf(s)) == |s| + SumLens(Tags(0, |UrlsOf(s)|))
  {
    var pieces, urls := Scan(s, 0).0, Scan(s, 0).1;
    ScanExact(s, 0);
    assert s[0..] == s;
    AlternateLength(pieces[1..], urls);
    AlternateLength(pieces[1..], Tags(0, |urls|));
  }

  /** Restoring grows a text by at most what the URLs add over their
      placeholders, as long as no URL is shorter than its placeholder. */
  lemma {:induction false} RestoreGrowth(t: string, urls: seq<string>, i: nat)
    requires i <= |urls| && forall k | i <= k < |urls| :: |Tag(k)| <= |urls[k]|
    ensures |RestoreFrom(t, urls, i)| + SumLens(Tags(i, |urls| - i)) <= |t| + SumLens(urls[i..])
    decreases |urls| - i
  {
    if i < |urls| {
      var t' := ReplaceFirst(t, Tag(i), urls[i]);
      assert |t'| + |Tag(i)| <= |t| + |urls[i]|;
      RestoreGrowth(t', urls, i + 1);
      assert SumLens(Tags(i, |urls| - i)) == |Tag(i)| + SumLens(Tags(i + 1, |urls| - (i + 1))) by {
        TagsCons(i, |urls| - (i + 1));
      }
      assert SumLens(urls[i..]) == |urls[i]| + SumLens(urls[i + 1..]) by {
        assert urls[i..][1..] == urls[i + 1..];
      }
      assert RestoreFrom(t, urls, i) == RestoreFrom(t', urls, i + 1);
    } else {
      assert Tags(i, 0) == [];
    }
  }

  /** Restoring the URLs of `s` into a text no longer than `Masked(s)`
      gives a text no longer than `s`, when `s` holds at most 100 URLs
      (placeholders up to `[URL_99]` are at most 8 characters long, and
      every URL at least 8). */
  lemma RestoreBounded(s: string, t: string)
    requires |UrlsOf(s)| <= 100 && |t| <= |Masked(s)|
    ensures |Restored(t, UrlsOf(s))| <= |s|
  {
    var urls := UrlsOf(s);
    ScanUrls(s, 0);
    RestoreGrowth(t, urls, 0);
    MaskedLength(s);
    assert urls[0..] == urls;
  }

  // ---------------------------------------------------------------------
  // The restore loop as written
  // ---------------------------------------------------------------------

  /** What `$` followed by `c` stands for in a replacement pattern, when
      the pattern is a string (so there are no capture groups): `$$` is
      `$`, `$&` the match, `` $` `` the text before it, `$'` the text after
      it; with any other `c` the `$` stands for itself. */
  function Substitution(c: char, t: string, pos: nat, len: nat): Option<string>
    requires pos + len <= |t|
  {
    if c == '$' then Some("$")
    else if c == '&' then Some(t[pos..pos + len])
    else if c == '`' then Some(t[..pos])
    else if c == '\'' then Some(t[pos + len..])
    else None
  }

  /** The replacement text `String.prototype.replace` builds from `rep`
      for a match of length `len` at `pos` in `t`. */
  function Expand(rep: string, t: string, pos: nat, len: nat): string
    requires pos + len <= |t|
    decreases |rep|
  {
    if |rep| == 0 then ""
    else if rep[0] == '$' && |rep| >= 2 && Substitution(rep[1], t, pos, len).Some? then
      Substitution(rep[1], t, pos, len).value + Expand(rep[2..], t, pos, len)
    else [rep[0]] + Expand(rep[1..], t, pos, len)
  }

  /** Text without `$` is copied through unchanged. */
  lemma {:induction false} ExpandPlainPrefix(a: string, b: string, t: string, pos: nat, len: nat)
    requires pos + len <= |t| && '$' !in a
    ensures Expand(a + b, t, pos, len) == a + Expand(b, t, pos, len)
    decreases |a|
  {
    if a == [] {
      assert a + b == b;
    } else {
      assert (a + b)[1..] == a[1..] + b;
      assert a[0] in a;
      assert a[1..] <= a[1..];
      assert forall c | c in a[1..] :: c in a;
      ExpandPlainPrefix(a[1..], b, t, pos, len);
      assert a == [a[0]] + a[1..];
    }
  }

  /** `t.replace(pat, rep)` for a string `pat`, exactly as JavaScript does
      it: the first occurrence, with `rep` read as a replacement pattern. */
  function ReplaceFirstAsWritten(t: string, pat: string, rep: string): string {
    match IndexOf(t, pat, 0)
    case Some(k) => t[..k] + Expand(rep, t, k, |pat|) + t[k + |pat|..]
    case None => t
  }

  function RestoreFromAsWritten(t: string, urls: seq<string>, i: nat): string
    requires i <= |urls|
    decreases |urls| - i
  {
    if i == |urls| then t else RestoreFromAsWritten(ReplaceFirstAsWritten(t, Tag(i), urls[i]), urls, i + 1)
  }

  /** `restore_urls` as written: each URL is passed to `replace` as a
      replacement pattern. */
  function RestoredAsWritten(t: string, urls: seq<string>): string {
    RestoreFromAsWritten(t, urls, 0)
  }

  /** A replacement without `$` is taken literally. */
  lemma ReplaceAgrees(t: string, pat: string, rep: string)
    requires '$' !in rep
    ensures ReplaceFirstAsWritten(t, pat, rep) == ReplaceFirst(t, pat, rep)
  {
    match IndexOf(t, pat, 0)
    case Some(k) =>
      ExpandPlainPrefix(rep, "", t, k, |pat|);
      assert rep + "" == rep;
    case None =>
  }

  /** The two restores agree whenever no URL contains `$`. */
  lemma {:induction false} AsWrittenAgrees(t: string, urls: seq<string>, i: nat)
    requires i <= |urls| && forall k | i <= k < |urls| :: '$' !in urls[k]
    ensures RestoreFromAsWritten(t, urls, i) == RestoreFrom(t, urls, i)
    decreases |urls| - i
  {
    if i < |urls| {
      ReplaceAgrees(t, Tag(i), urls[i]);
      var t' := ReplaceFirst(t, Tag(i), urls[i]);
      AsWrittenAgrees(t', urls, i + 1);
      assert RestoreFromAsWritten(t, urls, i) == RestoreFromAsWritten(t', urls, i + 1);
    }
  }

  /** The scan of `http://$$`: the whole text is one URL. */
  lemma ScanDollarUrl()
    ensures Scan("http://$$", 0) == (["", ""], ["http://$$"])
  {
    var m := "http://$$";
    assert SchemeEnd(m, 0) == Some(7);
    assert NonSpaceEnd(m, 7) == 9;
    assert UrlEnd(m, 0) == Some(9);
    assert Scan(m, 9) == ([""], []);
    assert m[0..9] == m;
    assert [""] + Scan(m, 9).0 == ["", ""];
    assert [m[0..9]] + Scan(m, 9).1 == [m];
  }

  lemma FirstTagText()
    ensures Tag(0) == "[URL_0]"
  {
    assert Digit(0) == '0';
    assert Decimal(0) == "0";
  }

  /** `http://$$` read as a replacement pattern is `http://$`. */
  lemma ExpandDollar(t: string)
    requires 7 <= |t|
    ensures Expand("http://$$", t, 0, 7) == "http://$"
  {
    assert "http://$$" == "http://" + "$$";
    ExpandPlainPrefix("http://", "$$", t, 0, 7);
    DoubleDollar(t);
  }

  /** `$$` stands for one `$`. */
  lemma DoubleDollar(t: string)
    requires 7 <= |t|
    ensures Expand("$$", t, 0, 7) == "$"
  {
    var rep := "$$";
    assert rep[0] == '$' && rep[1] == '$' && rep[2..] == [];
    assert Substitution(rep[1], t, 0, 7) == Some("$");
    assert Expand(rep[2..], t, 0, 7) == "";
  }

  /** Replacing `[URL_0]` by `http://$$` as a replacement pattern. */
  lemma ExpandDollarUrl()
    ensures RestoredAsWritten("[URL_0]", ["http://$$"]) == "http://$"
  {
    var t, m := "[URL_0]", "http://$$";
    FirstTagText();
    assert IndexOf(t, Tag(0), 0) == Some(0);
    ExpandDollar(t);
    assert t[..0] == [] && t[0 + |Tag(0)|..] == [];
    assert ReplaceFirstAsWritten(t, Tag(0), m) == [] + Expand(m, t, 0, |Tag(0)|) + [];
    assert ReplaceFirstAsWritten(t, Tag(0), m) == "http://$";
  }

  /** `http://$$` is masked as `[URL_0]` and holds no placeholder text. */
  lemma MaskDollarUrl()
    ensures NoMarker("http://$$") && Masked("http://$$") == "[URL_0]" && UrlsOf("http://$$") == ["http://$$"]
  {
    var m := "http://$$";
    forall k: nat | k <= |m| ensures !OccursAt(m, Marker, k) {
      if k + 5 <= |m| {
        assert m[k..k + 5][0] == m[k] != '[';
      }
    }
    ScanDollarUrl();
    FirstTagText();
    assert Tags(0, 1) == ["[URL_0]"];
  }

  /** A URL with `$$` in it does not survive the round trip as written:
      `http://$$` comes back as `http://$`, while the literal restore gives
      it back unchanged. */
  lemma DollarUrlMangled()
    ensures var m := "http://$$";
      && NoMarker(m) && RestoredAsWritten(Masked(m), UrlsOf(m)) == "http://$"
      && Restored(Masked(m), UrlsOf(m)) == m
  {
    MaskDollarUrl();
    ExpandDollarUrl();
    RestoreInverse("http://$$");
  }

  /** The scan of `http://$' 123`: one URL, then ` 123`. */
  lemma ScanQuoteUrl()
    ensures Scan("http://$' 123", 0) == (["", " 123"], ["http://$'"])
  {
    var m := "http://$' 123";
    assert SchemeEnd(m, 0) == Some(7);
    assert NonSpaceEnd(m, 7) == 9;
    assert UrlEnd(m, 0) == Some(9);
    assert Scan(m, 13) == ([""], []);
    ScanPlain(m, 12, "");
    assert [m[12]] + "" == "3";
    ScanPlain(m, 11, "3");
    assert [m[11]] + "3" == "23";
    ScanPlain(m, 10, "23");
    assert [m[10]] + "23" == "123";
    ScanPlain(m, 9, "123");
    assert [m[9]] + "123" == " 123";
    assert m[0..9] == "http://$'";
    assert [""] + Scan(m, 9).0 == ["", " 123"];
    assert [m[0..9]] + Scan(m, 9).1 == ["http://$'"];
  }

  /** A character where no URL starts joins the piece after it. */
  lemma ScanPlain(s: string, i: nat, piece: string)
    requires i < |s| && Scan(s, i + 1) == ([piece], [])
    requires s[i] != 'h' && s[i] != 'H' && s[i] != '@'
    ensures Scan(s, i) == ([[s[i]] + piece], [])
  {
    assert SchemeEnd(s, i) == None;
    assert UrlEnd(s, i) == None;
    var rest := Scan(s, i + 1);
    assert rest.0[0] == piece && rest.0[1..] == [] && rest.1 == [];
    assert Scan(s, i) == ([[s[i]] + rest.0[0]] + rest.0[1..], rest.1);
    assert [[s[i]] + piece] + rest.0[1..] == [[s[i]] + piece];
  }

  /** `$'` stands for the text after the match. */
  lemma QuoteDollarAt(t: string, n: nat)
    requires n <= |t|
    ensures Expand("$'", t, 0, n) == t[n..]
  {
    var rep := "$'";
    assert rep[0] == '$' && rep[1] == '\'' && rep[2..] == [];
    assert Substitution(rep[1], t, 0, n) == Some(t[n..]);
    assert Expand(rep[2..], t, 0, n) == "";
  }

  /** `http://$' 123` is masked as `[URL_0] 123`. */
  lemma MaskQuoteUrl()
    ensures UrlsOf("http://$' 123") == ["http://$'"] && Masked("http://$' 123") == "[URL_0] 123"
  {
    ScanQuoteUrl();
    MaskedByScan("http://$' 123", ["", " 123"], ["http://$'"]);
    FirstTagText();
    assert Tags(0, 1) == ["[URL_0]"];
    assert Alternate([" 123"], ["[URL_0]"]) == "[URL_0]" + " 123" + Alternate([], []);
  }

  /** The masked text and the URLs, read off the scan. */
  lemma MaskedByScan(m: string, pieces: seq<string>, urls: seq<string>)
    requires Scan(m, 0) == (pieces, urls)
    ensures UrlsOf(m) == urls && Masked(m) == Interleave(pieces, Tags(0, |urls|))
  {
  }

  /** Restoring, as written, the one URL `http://$'` into `[URL_0]`
      followed by `rest`: `rest` comes twice. */
  lemma RestoreQuote(t: string, u: string, rest: string)
    requires t == Tag(0) + rest && u == "http://" + "$'"
    ensures RestoredAsWritten(t, [u]) == "http://" + rest + rest
  {
    assert '$' !in "http://";
    ReplaceQuote(t, Tag(0), "http://", rest);
    var r := "http://" + rest + rest;
    assert RestoreFromAsWritten(r, [u], 1) == r;
  }

  /** `tag` followed by `rest`, with `tag` replaced by `plain` and `$'`
      read as a replacement pattern: `rest` comes twice. */
  lemma ReplaceQuote(t: string, tag: string, plain: string, rest: string)
    requires t == tag + rest && '$' !in plain
    ensures ReplaceFirstAsWritten(t, tag, plain + "$'") == plain + rest + rest
  {
    var n := |tag|;
    assert t[0..n] == tag;
    assert IndexOf(t, tag, 0) == Some(0);
    ExpandPlainPrefix(plain, "$'", t, 0, n);
    QuoteDollarAt(t, n);
    assert t[..0] == [] && t[n..] == rest;
  }

  /** A URL ending in `$'` drags a second copy of the text after it into
      the restored text: restoring, as written, the URL `http://$'` into
      `[URL_0]` followed by `rest` gives back more than the message
      `http://$'` followed by `rest` once `rest` has three characters.
      The message `http://$' 123` is such a case (`MaskQuoteUrl`): it comes
      back as `http:// 123 123`. So as written the restore does not keep
      the bound `RestoreBounded` proves of the literal one, and each
      further `$'` adds another copy. */
  lemma DollarQuoteGrows(rest: string)
    requires |rest| >= 3
    ensures |RestoredAsWritten(Tag(0) + rest, ["http://$'"])| > |"http://$'" + rest|
  {
    RestoreQuote(Tag(0) + rest, "http://$'", rest);
  }
}
