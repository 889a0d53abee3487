/** The message validator and sanitiser. Every content check runs on the
    URL-masked text. The Unicode character tables the source's regular
    expressions consult (the allowed categories and `toLowerCase`) are a
    parameter. */
module MessageValidator {
  import opened Common
  import opened Text
  import opened UrlMasking

  const MaxMessageLength: nat := 1000
  /** The default `max_repeats` of `has_excessive_repeats`. */
  const MaxRepeatedChars: nat := 5
  /** The default `max_repeats` of `has_repeated_words`. */
  const MaxRepeatedWords: nat := 3
  /** The shortest run of combining marks refused. */
  const DiacriticRun: nat := 10

  /** `allowed`: the class `[\p{L}\p{N}\p{P}\p{Zs}\p{So}\p{Mn}\p{Mc}]`;
      `lower`: `toLowerCase` on a whole text (which is not a map of single
      characters: `İ` lowers to two code points, a final `Σ` to `ς`). */
  datatype CharTables = CharTables(allowed: char -> bool, lower: string -> string)

  /** What the real tables are known to satisfy: placeholder characters are
      letters, digits or punctuation; line terminators are in none of the
      allowed categories; lower-casing text without white space gives text
      without white space, and lower-casing non-empty text gives non-empty
      text. */
  ghost predicate WellFormed(tables: CharTables) {
    && (forall c | c in "[]_URL0123456789" :: tables.allowed(c))
    && !tables.allowed('\n') && !tables.allowed('\r')
    && !tables.allowed('\U{2028}') && !tables.allowed('\U{2029}')
    && (forall s {:trigger tables.lower(s)} :: NoSpace(s) ==> NoSpace(tables.lower(s)))
    && (forall s {:trigger tables.lower(s)} :: s != [] ==> tables.lower(s) != [])
  }

  // ---------------------------------------------------------------------
  // The content checks
  // ---------------------------------------------------------------------

  /** `has_excessive_repeats(text, max_repeats)`: the pattern
      `(.)\1{max_repeats,}` matches, i.e. some character other than a line
      terminator occurs at least `max_repeats + 1` times in a row. */
  predicate HasExcessiveRepeats(text: string, maxRepeats: nat) {
    var n := maxRepeats + 1;
    exists i | 0 <= i < |text| :: RunAt(text, i, n)
  }

  /** A character `.` matches ends, at `j`, a run longer than `maxRepeats`. */
  predicate EndsLongRun(text: string, j: nat, maxRepeats: nat)
    requires j < |text|
  {
    !IsLineTerminator(text[j]) && RunBack(text, j) > maxRepeats
  }

  /** The same, told from the end of each run: some non-terminator ends a
      run longer than `maxRepeats`. */
  lemma ExcessiveRepeatsByRun(text: string, maxRepeats: nat)
    ensures HasExcessiveRepeats(text, maxRepeats) <==> exists j | 0 <= j < |text| :: EndsLongRun(text, j, maxRepeats)
  {
    var n := maxRepeats + 1;
    if i :| 0 <= i < |text| && RunAt(text, i, n) {
      RunEndsLong(text, i, n);
      assert EndsLongRun(text, i + n - 1, maxRepeats);
    }
    if j :| 0 <= j < |text| && EndsLongRun(text, j, maxRepeats) {
      LongRunStarts(text, j, n);
      assert RunAt(text, j + 1 - n, n);
      assert HasExcessiveRepeats(text, maxRepeats);
    }
  }

  /** A run of `n` starting at `i` ends at `i + n - 1` with length at least `n`. */
  lemma RunEndsLong(text: string, i: nat, n: nat)
    requires n >= 1 && RunAt(text, i, n)
    ensures i + n - 1 < |text| && EndsLongRun(text, i + n - 1, n - 1)
  {
    var j := i + n - 1;
    assert text[j] == text[i];
    assert forall k | j + 1 - n <= k <= j :: text[k] == text[j];
    RunBackWindow(text, j, n);
  }

  /** A run of at least `n` ending at `j` starts, with `n` copies, at `j + 1 - n`. */
  lemma LongRunStarts(text: string, j: nat, n: nat)
    requires 1 <= n && j < |text| && EndsLongRun(text, j, n - 1)
    ensures j + 1 >= n && RunAt(text, j + 1 - n, n)
  {
    RunBackWindow(text, j, n);
    var i := j + 1 - n;
    assert text[i] == text[j];
    assert forall k | i <= k < i + n :: text[k] == text[i];
  }

  /** The pattern of `EXCESSIVE_DIACRITICS_REGEX`. */
  predicate IsDiacritic(c: char) {
    || ('\U{0300}' <= c <= '\U{036F}') || ('\U{0483}' <= c <= '\U{0489}')
    || ('\U{1AB0}' <= c <= '\U{1AFF}') || ('\U{1DC0}' <= c <= '\U{1DFF}')
    || ('\U{20D0}' <= c <= '\U{20FF}') || ('\U{FE20}' <= c <= '\U{FE2F}')
  }

  /** Ten combining marks start at `i`. */
  predicate DiacriticsAt(text: string, i: nat) {
    i + DiacriticRun <= |text| && forall k | i <= k < i + DiacriticRun :: IsDiacritic(text[k])
  }

  /** `EXCESSIVE_DIACRITICS_REGEX.test(text)`: ten combining marks in a row. */
  predicate HasExcessiveDiacritics(text: string) {
    exists i: nat | i < |text| :: DiacriticsAt(text, i)
  }

  /** `VALID_CHARS_REGEX.test(text)`: non-empty and every character allowed. */
  predicate AllValidChars(text: string, allowed: char -> bool) {
    |text| > 0 && forall k | 0 <= k < |text| :: allowed(text[k])
  }

  /** `n` equal entries in a row end at some position of `ws`. */
  predicate RepeatedRun<T(==)>(ws: seq<T>, n: nat) {
    exists j | 0 <= j < |ws| :: n <= j + 1 && forall k | j + 1 - n <= k <= j :: ws[k] == ws[j]
  }

  /** The run length at which `has_repeated_words` answers true: the loop
      only compares on a repeat, so a run has at least two words. */
  function RepeatThreshold(maxRepeats: int): nat {
    if maxRepeats + 1 < 2 then 2 else maxRepeats + 1
  }

  /** What `has_repeated_words(text, max_repeats)` decides: in the lowered,
      white-space-split words, preceded by the empty word the loop starts
      from, more than `max_repeats` equal words follow each other. */
  predicate RepeatedWordsIn(text: string, maxRepeats: int, lower: string -> string) {
    RepeatedRun([""] + SplitWords(lower(text)), RepeatThreshold(maxRepeats))
  }

  /** `has_repeated_words(text, max_repeats)`. */
  method HasRepeatedWords(text: string, maxRepeats: int, lower: string -> string) returns (found: bool)
    ensures found <==> RepeatedWordsIn(text, maxRepeats, lower)
  {
    var words := SplitWords(lower(text));
    ghost var ws := [""] + words;
    ghost var n := RepeatThreshold(maxRepeats);
    var current := "";
    var count := 1;
    var i := 0;
    while i < |words|
      invariant 0 <= i <= |words|
      invariant current == ws[i] && count == RunBack(ws, i)
      invariant forall j | 0 <= j <= i :: RunBack(ws, j) < n
    {
      assert ws[i + 1] == words[i];
      if words[i] == current {
        count := count + 1;
        if count > maxRepeats {
          RunBackWindow(ws, i + 1, n);
          return true;
        }
      } else {
        current := words[i];
        count := 1;
      }
      i := i + 1;
    }
    forall j | 0 <= j < |ws| && n <= j + 1
      ensures !(forall k | j + 1 - n <= k <= j :: ws[k] == ws[j])
    {
      RunBackWindow(ws, j, n);
    }
    return false;
  }

  // ---------------------------------------------------------------------
  // validate_message and is_valid_message
  // ---------------------------------------------------------------------

  /** `validate_message(message)`: `None` when it returns, the reason when
      it throws. `None` input stands for a missing or non-string value. */
  function ValidateMessage(message: Option<string>, tables: CharTables): (r: Option<Rejection>)
    ensures r == Some(InvalidContent) <==> message.None? || message.value == []
    ensures r == Some(TooLong) <==> message.Some? && Units(message.value) > MaxMessageLength
    ensures r == Some(Blank) <==>
      && message.Some? && 0 < |message.value| && Units(message.value) <= MaxMessageLength
      && forall k | 0 <= k < |message.value| :: IsSpace(message.value[k])
  {
    if message.None? || message.value == [] then Some(InvalidContent)
    else if Units(message.value) > MaxMessageLength then Some(TooLong)
    else if Trim(message.value) == [] then Some(Blank)
    else ContentRejection(Masked(message.value), tables)
  }

  /** A message of more than 500 characters above U+FFFF is too long, since
      each of them is two UTF-16 code units. */
  lemma AstralTooLong(m: string, tables: CharTables)
    requires |m| > MaxMessageLength / 2 && forall k | 0 <= k < |m| :: m[k] as int > 0xFFFF
    ensures ValidateMessage(Some(m), tables) == Some(TooLong)
  {
    UnitsAstral(m);
  }

  /** The checks `validate_message` runs on the masked text, in order. */
  function ContentRejection(processed: string, tables: CharTables): (r: Option<Rejection>)
    ensures r.Some? ==> r.value in {ExcessiveRepeats, RepeatedWords, ExcessiveDiacritics, InvalidCharacters}
  {
    if HasExcessiveRepeats(processed, MaxRepeatedChars) then Some(ExcessiveRepeats)
    else if RepeatedWordsIn(processed, MaxRepeatedWords, tables.lower) then Some(RepeatedWords)
    else if HasExcessiveDiacritics(processed) then Some(ExcessiveDiacritics)
    else if !AllValidChars(processed, tables.allowed) then Some(InvalidCharacters)
    else None
  }

  /** `is_valid_message(message)`: true exactly when `validate_message`
      does not throw; an accepted message is a non-blank string of at most
      1000 UTF-16 code units. */
  function IsValidMessage(message: Option<string>, tables: CharTables): (r: bool)
    ensures r <==> ValidateMessage(message, tables).None?
    ensures r ==> message.Some? && 0 < |message.value| && Units(message.value) <= MaxMessageLength &&
                  exists k | 0 <= k < |message.value| :: !IsSpace(message.value[k])
  {
    ValidateMessage(message, tables).None?
  }

  /** Splitting text without white space gives that text alone. */
  lemma {:induction false} SplitNoSpace(s: string, i: nat, cur: string)
    requires i <= |s| && forall c | c in cur :: !IsSpace(c)
    requires forall k | i <= k < |s| :: !IsSpace(s[k])
    ensures SplitFrom(s, i, cur) == [cur + s[i..]]
    decreases |s| - i
  {
    if i < |s| {
      SplitNoSpace(s, i + 1, cur + [s[i]]);
      assert cur + [s[i]] + s[i + 1..] == cur + s[i..];
    } else {
      assert cur + s[i..] == cur;
    }
  }

  /** The scan of a message that is one URL: `http://` and a non-empty run
      without white space. */
  lemma ScanSingleUrl(rest: string)
    requires |rest| > 0 && forall k | 0 <= k < |rest| :: !IsSpace(rest[k])
    ensures var m := "http://" + rest; Scan(m, 0) == (["", ""], [m])
  {
    var m := "http://" + rest;
    assert m[4] == ':' && m[5] == '/' && m[6] == '/' && m[4..7] == "://";
    assert SchemeEnd(m, 0) == Some(7);
    assert forall k | 7 <= k < |m| :: m[k] == rest[k - 7];
    assert NonSpaceEnd(m, 7) == |m|;
    assert UrlEnd(m, 0) == Some(|m|);
    assert Scan(m, |m|) == ([""], []);
    assert m[0..|m|] == m;
    assert [""] + Scan(m, |m|).0 == ["", ""];
    assert [m[0..|m|]] + Scan(m, |m|).1 == [m];
  }

  /** `[URL_0]` passes every content check. */
  lemma PlaceholderPasses(tables: CharTables)
    requires WellFormed(tables)
    ensures ContentRejection(Tag(0), tables) == None
  {
    FirstTagText();
    PlaceholderNoRepeats();
    PlaceholderOneWord(tables);
    PlaceholderValid(tables);
  }

  lemma PlaceholderNoRepeats()
    ensures !HasExcessiveRepeats("[URL_0]", MaxRepeatedChars) && !HasExcessiveDiacritics("[URL_0]")
  {
    var t, n := "[URL_0]", MaxRepeatedChars + 1;
    forall i | 0 <= i < |t| ensures !RunAt(t, i, n) {
      if i <= 1 {
        assert t[i + 1] != t[i];
      }
    }
  }

  lemma PlaceholderOneWord(tables: CharTables)
    requires WellFormed(tables)
    ensures !RepeatedWordsIn("[URL_0]", MaxRepeatedWords, tables.lower)
  {
    var t := "[URL_0]";
    var low := tables.lower(t);
    assert NoSpace(t);
    assert NoSpace(low);
    SplitNoSpace(low, 0, "");
    assert "" + low[0..] == low;
    var ws := [""] + [low];
    assert ws[0] != ws[1];
  }

  lemma PlaceholderValid(tables: CharTables)
    requires WellFormed(tables)
    ensures AllValidChars("[URL_0]", tables.allowed)
  {
    var t := "[URL_0]";
    forall k | 0 <= k < |t| ensures tables.allowed(t[k]) {
      assert t[k] in "[]_URL0123456789";
    }
  }

  /** A message that is a single URL is accepted whatever the URL holds, a
      run of a hundred equal characters, say: URL characters never cause a
      rejection. */
  lemma SingleUrlAccepted(rest: string, tables: CharTables)
    requires WellFormed(tables)
    requires |rest| > 0 && forall k | 0 <= k < |rest| :: !IsSpace(rest[k])
    requires Units(rest) + 7 <= MaxMessageLength
    ensures ValidateMessage(Some("http://" + rest), tables) == None
  {
    var m := "http://" + rest;
    SchemeUnits(rest);
    PastTheGuards(m, tables);
    SingleUrlMasked(rest);
    PlaceholderPasses(tables);
  }

  /** `http://` takes seven code units. */
  lemma SchemeUnits(rest: string)
    ensures Units("http://" + rest) == Units(rest) + 7
  {
    UnitsConcat("http://", rest);
    UnitsBmp("http://");
  }

  /** A message of 1 to 1000 code units, not all white space, is judged by
      the content checks on its masked text alone. */
  lemma PastTheGuards(m: string, tables: CharTables)
    requires 0 < |m| && Units(m) <= MaxMessageLength
    requires exists k | 0 <= k < |m| :: !IsSpace(m[k])
    ensures ValidateMessage(Some(m), tables) == ContentRejection(Masked(m), tables)
  {
  }

  /** A single URL is masked as `[URL_0]`. */
  lemma SingleUrlMasked(rest: string)
    requires |rest| > 0 && forall k | 0 <= k < |rest| :: !IsSpace(rest[k])
    ensures Masked("http://" + rest) == Tag(0)
  {
    ScanSingleUrl(rest);
    assert Tags(0, 1) == [Tag(0)];
  }

  // ---------------------------------------------------------------------
  // sanitize_message
  // ---------------------------------------------------------------------

  /** Removing every character outside the allowed class. */
  function Filter(s: string, allowed: char -> bool): (r: string)
    ensures |r| <= |s| && forall k | 0 <= k < |r| :: allowed(r[k])
    ensures (forall k | 0 <= k < |s| :: allowed(s[k])) ==> r == s
    decreases |s|
  {
    if s == [] then []
    else
      var last := s[|s| - 1];
      assert s == s[..|s| - 1] + [last];
      Filter(s[..|s| - 1], allowed) + (if allowed(last) then [last] else [])
  }

  /** Position `j` survives the collapse: it is a line terminator (which
      `.` does not match) or among the first five of its run. */
  predicate Kept(s: string, j: nat)
    requires j < |s|
  {
    IsLineTerminator(s[j]) || RunBack(s, j) <= MaxRepeatedChars
  }

  /** `s.replace(/(.)\1{5,}/gu, c => c.repeat(5))`: every run of six or
      more copies of a character `.` matches is cut to its first five. */
  function Collapse(s: string): string
    decreases |s|
  {
    if s == [] then []
    else Collapse(s[..|s| - 1]) + (if Kept(s, |s| - 1) then [s[|s| - 1]] else [])
  }

  /** No character other than a line terminator ends a run longer than
      five. */
  predicate NoLongRun(t: string) {
    forall j | 0 <= j < |t| :: !EndsLongRun(t, j, MaxRepeatedChars)
  }

  lemma NoLongRunIff(t: string)
    ensures NoLongRun(t) <==> !HasExcessiveRepeats(t, MaxRepeatedChars)
  {
    ExcessiveRepeatsByRun(t, MaxRepeatedChars);
  }

  /** The run the collapse leaves at its end. */
  function CappedRun(s: string): nat
    requires s != []
  {
    if Kept(s, |s| - 1) then RunBack(s, |s| - 1) else MaxRepeatedChars
  }

  /** The collapse keeps only characters of `s`, never makes it longer,
      leaves no run of six, and ends with the last character of `s`. */
  lemma {:induction false} CollapseShape(s: string)
    ensures var r := Collapse(s);
      && |r| <= |s|
      && (forall k | 0 <= k < |r| :: r[k] in s)
      && NoLongRun(r)
      && (s != [] ==> r != [] && r[|r| - 1] == s[|s| - 1] && RunBack(r, |r| - 1) == CappedRun(s))
    decreases |s|
  {
    if s != [] {
      var s0, c := s[..|s| - 1], s[|s| - 1];
      var r0 := Collapse(s0);
      CollapseShape(s0);
      if s0 != [] {
        RunBackPrefix(s, |s| - 1, |s| - 2);
      }
      if Kept(s, |s| - 1) {
        assert Collapse(s) == r0 + [c];
        CollapseKept(s, s0, r0, c);
      } else {
        assert s0 != [] && s0[|s0| - 1] == c;
        assert Collapse(s) == r0;
      }
    }
  }

  /** The step of `CollapseShape` that keeps the last character `c`: the
      collapsed prefix `r0` followed by `c`. */
  lemma CollapseKept(s: string, s0: string, r0: string, c: char)
    requires s != [] && s0 == s[..|s| - 1] && c == s[|s| - 1] && Kept(s, |s| - 1)
    requires |r0| <= |s0| && (forall k | 0 <= k < |r0| :: r0[k] in s0) && NoLongRun(r0)
    requires s0 != [] ==> r0 != [] && r0[|r0| - 1] == s0[|s0| - 1] && RunBack(r0, |r0| - 1) == CappedRun(s0)
    requires s0 != [] ==> RunBack(s0, |s0| - 1) == RunBack(s, |s| - 2)
    ensures var r := r0 + [c];
      && |r| <= |s|
      && (forall k | 0 <= k < |r| :: r[k] in s)
      && NoLongRun(r)
      && RunBack(r, |r| - 1) == CappedRun(s)
  {
    KeptRun(s, s0, r0, c);
    ExtendNoLongRun(r0, c);
    AppendedMembers(s, r0);
  }

  /** Characters of the prefix of `s`, followed by its last one, are
      characters of `s`. */
  lemma AppendedMembers(s: string, r0: string)
    requires s != [] && forall k | 0 <= k < |r0| :: r0[k] in s[..|s| - 1]
    ensures var r := r0 + [s[|s| - 1]]; forall k | 0 <= k < |r| :: r[k] in s
  {
    var r := r0 + [s[|s| - 1]];
    forall k | 0 <= k < |r| ensures r[k] in s {
      if k < |r0| {
        assert r[k] in s[..|s| - 1];
      }
    }
  }

  /** The run the kept last character ends in the collapsed text. */
  lemma KeptRun(s: string, s0: string, r0: string, c: char)
    requires s != [] && s0 == s[..|s| - 1] && c == s[|s| - 1] && Kept(s, |s| - 1) && |r0| <= |s0|
    requires s0 != [] ==> r0 != [] && r0[|r0| - 1] == s0[|s0| - 1] && RunBack(r0, |r0| - 1) == CappedRun(s0)
    requires s0 != [] ==> RunBack(s0, |s0| - 1) == RunBack(s, |s| - 2)
    ensures RunBack(r0 + [c], |r0|) == CappedRun(s)
  {
    if s0 != [] && s0[|s0| - 1] == c {
      KeptRunLonger(s, s0, r0, c);
    } else {
      var r := r0 + [c];
      assert RunBack(s, |s| - 1) == 1;
      assert r0 != [] ==> r[|r0| - 1] != c;
    }
  }

  /** `KeptRun` when the character before the last one is the same. */
  lemma KeptRunLonger(s: string, s0: string, r0: string, c: char)
    requires s != [] && s0 == s[..|s| - 1] && c == s[|s| - 1] && Kept(s, |s| - 1)
    requires s0 != [] && s0[|s0| - 1] == c
    requires r0 != [] && r0[|r0| - 1] == c && RunBack(r0, |r0| - 1) == CappedRun(s0)
    requires RunBack(s0, |s0| - 1) == RunBack(s, |s| - 2)
    ensures RunBack(r0 + [c], |r0|) == CappedRun(s)
  {
    var r := r0 + [c];
    assert RunBack(s, |s| - 1) == RunBack(s, |s| - 2) + 1;
    assert Kept(s0, |s0| - 1);
    assert r[..|r0|] == r0;
    RunBackPrefix(r, |r0|, |r0| - 1);
  }

  /** Appending a character that ends no long run keeps a text free of
      long runs. */
  lemma ExtendNoLongRun(r0: string, c: char)
    requires NoLongRun(r0)
    requires IsLineTerminator(c) || RunBack(r0 + [c], |r0|) <= MaxRepeatedChars
    ensures NoLongRun(r0 + [c])
  {
    var r := r0 + [c];
    assert r[..|r0|] == r0;
    forall j | 0 <= j < |r| ensures !EndsLongRun(r, j, MaxRepeatedChars) {
      if j < |r0| {
        RunBackPrefix(r, |r0|, j);
        assert r[j] == r0[j] && !EndsLongRun(r0, j, MaxRepeatedChars);
      }
    }
  }

  /** A text with no long run is left as it is. */
  lemma {:induction false} CollapseKeeps(s: string)
    requires NoLongRun(s)
    ensures Collapse(s) == s
    decreases |s|
  {
    if s != [] {
      var s0 := s[..|s| - 1];
      forall j | 0 <= j < |s0| ensures !EndsLongRun(s0, j, MaxRepeatedChars) {
        RunBackPrefix(s, |s| - 1, j);
        assert s0[j] == s[j] && !EndsLongRun(s, j, MaxRepeatedChars);
      }
      CollapseKeeps(s0);
      assert !EndsLongRun(s, |s| - 1, MaxRepeatedChars);
      assert s == s0 + [s[|s| - 1]];
    }
  }

  /** The cleaned masked text: the disallowed characters removed, then long
      runs collapsed. */
  function Clean(processed: string, allowed: char -> bool): string {
    Collapse(Filter(processed, allowed))
  }

  /** In the cleaned text every character is allowed and no character
      repeats more than five times in a row. */
  lemma CleanedText(processed: string, allowed: char -> bool)
    ensures var r := Clean(processed, allowed);
      && |r| <= |processed|
      && (forall k | 0 <= k < |r| :: allowed(r[k]))
      && !HasExcessiveRepeats(r, MaxRepeatedChars)
  {
    var f := Filter(processed, allowed);
    CollapseShape(f);
    var r := Collapse(f);
    forall k | 0 <= k < |r| ensures allowed(r[k]) {
      assert r[k] in f;
    }
    NoLongRunIff(r);
  }

  /** `message.slice(0, MAX_MESSAGE_LENGTH)`: the longest prefix of at most
      1000 UTF-16 code units. */
  function Truncated(message: string): (r: string)
    ensures Units(r) <= MaxMessageLength && |r| <= |message| && r == message[..|r|]
    ensures |r| < |message| ==> Units(message[..|r| + 1]) > MaxMessageLength
    ensures Units(message) <= MaxMessageLength ==> r == message
  {
    message[..Fit(message, MaxMessageLength)]
  }

  /** `sanitize_message(message)`: truncate, mask the URLs, clean, restore
      the URLs (literally, see `RestoreUrls`), trim. The result is empty
      for a missing or empty message, and trimmed. */
  function SanitizeMessage(message: Option<string>, tables: CharTables): (r: string)
    ensures message.None? || message.value == [] ==> r == []
    ensures r == [] || (!IsSpace(r[0]) && !IsSpace(r[|r| - 1]))
  {
    if message.None? || message.value == [] then []
    else
      var m := Truncated(message.value);
      Trim(Restored(Clean(Masked(m), tables.allowed), UrlsOf(m)))
  }

  /** The result is at most 1000 characters long when the kept part of the
      message holds at most 100 URLs. */
  lemma SanitizeBounded(message: string, tables: CharTables)
    requires |UrlsOf(Truncated(message))| <= 100
    ensures |SanitizeMessage(Some(message), tables)| <= MaxMessageLength
  {
    if message != [] {
      var m := Truncated(message);
      UnitsBounds(m);
      CleanedText(Masked(m), tables.allowed);
      RestoreBounded(m, Clean(Masked(m), tables.allowed));
    }
  }

  /** Sanitizing a message the validator accepts only trims it, provided it
      holds no placeholder-like text; so what is stored is never empty. */
  lemma SanitizeAccepted(message: string, tables: CharTables)
    requires ValidateMessage(Some(message), tables).None? && NoMarker(message)
    ensures SanitizeMessage(Some(message), tables) == Trim(message)
    ensures SanitizeMessage(Some(message), tables) != []
  {
    var p := Masked(message);
    assert Truncated(message) == message && ContentRejection(p, tables) == None;
    assert AllValidChars(p, tables.allowed);
    assert Filter(p, tables.allowed) == p;
    NoLongRunIff(p);
    CollapseKeeps(p);
    assert Clean(p, tables.allowed) == p;
    RestoreInverse(message);
  }
}
