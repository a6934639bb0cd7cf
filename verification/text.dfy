/** Character classes, case mapping, whitespace handling, splitting, joining
    and substring search, as the scraper's Python 2 string operations do them. */
module Text {
  import opened Wrappers

  predicate IsDigit(c: char) { '0' <= c <= '9' }

  predicate NotDigit(c: char) { !IsDigit(c) }

  predicate IsUpperAscii(c: char) { 'A' <= c <= 'Z' }

  predicate IsLowerAscii(c: char) { 'a' <= c <= 'z' }

  /** Whitespace as Python 2's unicode `split()` and `strip()` see it. */
  predicate IsSpace(c: char) {
    || c == ' '
    || ('\t' <= c <= '\r')
    || ('\U{1C}' <= c <= '\U{1F}')
    || c == '\U{85}' || c == '\U{A0}' || c == '\U{1680}' || c == '\U{180E}'
    || ('\U{2000}' <= c <= '\U{200A}')
    || c == '\U{2028}' || c == '\U{2029}' || c == '\U{202F}' || c == '\U{205F}' || c == '\U{3000}'
  }

  predicate NotSpace(c: char) { !IsSpace(c) }

  /** The regular-expression class `\s` without the `re.UNICODE` flag. */
  predicate IsRegexSpace(c: char) { c == ' ' || ('\t' <= c <= '\r') }

  predicate NotRegexSpace(c: char) { !IsRegexSpace(c) }

  /** `unicode.lower()` on ASCII, Latin-1 and the Romanian letters with comma,
      cedilla and breve; every other character is left unchanged. */
  function LowerChar(c: char): (d: char)
    ensures IsSpace(d) <==> IsSpace(c)
    ensures IsDigit(d) <==> IsDigit(c)
    ensures !IsUpperAscii(d)
    ensures IsUpperAscii(c) ==> d as int == c as int + 32
    ensures !IsUpperAscii(c) && c as int < 128 ==> d == c
  {
    if IsUpperAscii(c) || ('\U{C0}' <= c <= '\U{DE}' && c != '\U{D7}') then (c as int + 32) as char
    else if c == '\U{102}' || c == '\U{15E}' || c == '\U{162}' || c == '\U{218}' || c == '\U{21A}' then (c as int + 1) as char
    else c
  }

  function Lower(s: string): (r: string)
    ensures |r| == |s|
    ensures forall i :: 0 <= i < |s| ==> r[i] == LowerChar(s[i])
  {
    seq(|s|, i requires 0 <= i < |s| => LowerChar(s[i]))
  }

  lemma LowerSlice(s: string, a: nat, b: nat)
    requires a <= b <= |s|
    ensures Lower(s)[a..b] == Lower(s[a..b])
  {
    assert forall i :: 0 <= i < b - a ==> Lower(s)[a..b][i] == Lower(s[a..b])[i];
  }

  lemma LowerCharIdempotent(c: char)
    ensures LowerChar(LowerChar(c)) == LowerChar(c)
  {
  }

  lemma LowerIdempotent(s: string)
    ensures Lower(Lower(s)) == Lower(s)
  {
    forall i | 0 <= i < |s| {
      LowerCharIdempotent(s[i]);
    }
  }

  lemma LowerAppend(a: string, b: string)
    ensures Lower(a + b) == Lower(a) + Lower(b)
  {
  }

  // ---------------------------------------------------------------- strip

  /** Index just past the last character of `s[lo..hi]` outside the
      whitespace class `p`, or `lo`. */
  function ContentEnd(s: string, lo: nat, hi: nat, p: char -> bool): (e: nat)
    requires lo <= hi <= |s|
    ensures lo <= e <= hi
    ensures forall i :: e <= i < hi ==> p(s[i])
    ensures e > lo ==> !p(s[e - 1])
    decreases hi
  {
    if hi > lo && p(s[hi - 1]) then ContentEnd(s, lo, hi - 1, p) else hi
  }

  /** Python's unicode `strip()`: the text between the leading and trailing whitespace. */
  function Strip(s: string): (r: string)
    ensures |r| <= |s|
    ensures |r| > 0 ==> !IsSpace(r[0]) && !IsSpace(r[|r| - 1])
  {
    var a := Span(s, 0, IsSpace);
    s[a..ContentEnd(s, a, |s|, IsSpace)]
  }

  /** `strip()` on a Python 2 byte string, whose whitespace is the C
      `isspace` set: `' '` and `'\t'`..`'\r'`, and not `'\U{1C}'`..`'\U{1F}'`. */
  function StripBytes(s: string): (r: string)
    ensures |r| <= |s|
    ensures |r| > 0 ==> !IsRegexSpace(r[0]) && !IsRegexSpace(r[|r| - 1])
  {
    var a := Span(s, 0, IsRegexSpace);
    s[a..ContentEnd(s, a, |s|, IsRegexSpace)]
  }

  /** What `StripBytes` removes is byte-string whitespace at either end, and
      nothing else. */
  lemma StripBytesSlice(s: string)
    ensures var a := Span(s, 0, IsRegexSpace); var r := StripBytes(s);
            && a + |r| <= |s| && r == s[a..a + |r|]
            && (forall i :: 0 <= i < a ==> IsRegexSpace(s[i]))
            && (forall i :: a + |r| <= i < |s| ==> IsRegexSpace(s[i]))
  {
  }

  /** What `Strip` removes is whitespace at either end, and nothing else. */
  lemma StripSlice(s: string)
    ensures var a := Span(s, 0, IsSpace); var r := Strip(s);
            && a + |r| <= |s| && r == s[a..a + |r|]
            && (forall i :: 0 <= i < a ==> IsSpace(s[i]))
            && (forall i :: a + |r| <= i < |s| ==> IsSpace(s[i]))
  {
  }

  lemma {:induction false} SpanLower(s: string, i: nat)
    requires i <= |s|
    ensures Span(Lower(s), i, IsSpace) == Span(s, i, IsSpace)
    decreases |s| - i
  {
    if i < |s| && IsSpace(s[i]) {
      SpanLower(s, i + 1);
    }
  }

  lemma {:induction false} ContentEndLower(s: string, lo: nat, hi: nat)
    requires lo <= hi <= |s|
    ensures ContentEnd(Lower(s), lo, hi, IsSpace) == ContentEnd(s, lo, hi, IsSpace)
    decreases hi
  {
    if hi > lo && IsSpace(s[hi - 1]) {
      ContentEndLower(s, lo, hi - 1);
    }
  }

  /** Lower-casing and stripping commute, so `text.strip().lower()` and
      `text.lower().strip()` are the same text. */
  lemma StripLowerCommute(s: string)
    ensures Strip(Lower(s)) == Lower(Strip(s))
  {
    SpanLower(s, 0);
    var a := Span(s, 0, IsSpace);
    ContentEndLower(s, a, |s|);
    LowerSlice(s, a, ContentEnd(s, a, |s|, IsSpace));
  }

  lemma {:induction false} SpanShift(s: string, i: nat)
    requires i <= |s|
    ensures Span(" " + s, i + 1, IsSpace) == Span(s, i, IsSpace) + 1
    decreases |s| - i
  {
    if i < |s| && IsSpace(s[i]) {
      SpanShift(s, i + 1);
    }
  }

  lemma {:induction false} ContentEndShift(s: string, lo: nat, hi: nat)
    requires lo <= hi <= |s|
    ensures ContentEnd(" " + s, lo + 1, hi + 1, IsSpace) == ContentEnd(s, lo, hi, IsSpace) + 1
    decreases hi
  {
    if hi > lo && IsSpace(s[hi - 1]) {
      ContentEndShift(s, lo, hi - 1);
    }
  }

  lemma SpanFromSpace(t: string)
    requires |t| > 0 && IsSpace(t[0])
    ensures Span(t, 0, IsSpace) == Span(t, 1, IsSpace)
  {
  }

  lemma ShiftSlice(s: string, a: nat, b: nat)
    requires a <= b <= |s|
    ensures (" " + s)[a + 1..b + 1] == s[a..b]
  {
  }

  lemma PaddedSpan(s: string)
    ensures Span(" " + s, 0, IsSpace) == Span(s, 0, IsSpace) + 1
  {
    SpanShift(s, 0);
    SpanFromSpace(" " + s);
  }

  lemma StripLeadingSpace(s: string)
    ensures Strip(" " + s) == Strip(s)
  {
    var a := Span(s, 0, IsSpace);
    var b := ContentEnd(s, a, |s|, IsSpace);
    PaddedSpan(s);
    ContentEndShift(s, a, |s|);
    StripBetween(" " + s, a + 1, b + 1);
    ShiftSlice(s, a, b);
    StripBetween(s, a, b);
  }

  /** `Strip` keeps what lies between the leading run of whitespace and the
      trailing one. */
  lemma StripBetween(s: string, a: nat, b: nat)
    requires a <= |s| && a == Span(s, 0, IsSpace) && b == ContentEnd(s, a, |s|, IsSpace)
    ensures Strip(s) == s[a..b]
  {
  }

  // ------------------------------------------------------- spans and words

  /** End of the run of characters satisfying `p` that starts at `i`. */
  function Span(s: string, i: nat, p: char -> bool): (e: nat)
    requires i <= |s|
    ensures i <= e <= |s|
    ensures forall k :: i <= k < e ==> p(s[k])
    ensures e < |s| ==> !p(s[e])
    decreases |s| - i
  {
    if i < |s| && p(s[i]) then Span(s, i + 1, p) else i
  }

  /** A run is determined by where it stops. */
  lemma {:induction false} SpanExact(s: string, i: nat, e: nat, p: char -> bool)
    requires i <= e <= |s|
    requires forall k :: i <= k < e ==> p(s[k])
    requires e < |s| ==> !p(s[e])
    ensures Span(s, i, p) == e
    decreases e - i
  {
    if i < e {
      SpanExact(s, i + 1, e, p);
    }
  }

  predicate IsWord(w: string) {
    |w| > 0 && forall i :: 0 <= i < |w| ==> !IsSpace(w[i])
  }

  /** Python's `split()` with no separator: the maximal runs of non-whitespace. */
  function Words(s: string): (ws: seq<string>)
    ensures forall k :: 0 <= k < |ws| ==> IsWord(ws[k])
    decreases |s|
  {
    if |s| == 0 then []
    else if IsSpace(s[0]) then Words(s[1..])
    else
      var e := Span(s, 0, NotSpace);
      [s[..e]] + Words(s[e..])
  }

  /** `sep.join(ws)`. */
  function Join(sep: string, ws: seq<string>): string
  {
    if |ws| == 0 then ""
    else if |ws| == 1 then ws[0]
    else ws[0] + sep + Join(sep, ws[1..])
  }

  /** `''.join(ws)`. */
  function Concat(ws: seq<string>): string
  {
    if |ws| == 0 then "" else ws[0] + Concat(ws[1..])
  }

  lemma {:induction false} ConcatAppend(a: seq<string>, b: seq<string>)
    ensures Concat(a + b) == Concat(a) + Concat(b)
  {
    if |a| == 0 {
      assert a + b == b;
    } else {
      assert (a + b)[0] == a[0];
      assert (a + b)[1..] == a[1..] + b;
      ConcatAppend(a[1..], b);
      assert a[0] + (Concat(a[1..]) + Concat(b)) == (a[0] + Concat(a[1..])) + Concat(b);
    }
  }

  /** The non-whitespace characters of `s`, in order. */
  function NonSpace(s: string): (r: string)
    ensures forall i :: 0 <= i < |r| ==> !IsSpace(r[i])
  {
    if |s| == 0 then ""
    else
      var h := if IsSpace(s[0]) then "" else [s[0]];
      var t := NonSpace(s[1..]);
      assert forall i :: |h| <= i < |h + t| ==> (h + t)[i] == t[i - |h|];
      h + t
  }

  lemma {:induction false} NonSpaceAppend(a: string, b: string)
    ensures NonSpace(a + b) == NonSpace(a) + NonSpace(b)
  {
    if |a| == 0 {
      assert a + b == b;
    } else {
      assert (a + b)[0] == a[0];
      assert (a + b)[1..] == a[1..] + b;
      NonSpaceAppend(a[1..], b);
      var h := if IsSpace(a[0]) then "" else [a[0]];
      assert h + (NonSpace(a[1..]) + NonSpace(b)) == (h + NonSpace(a[1..])) + NonSpace(b);
    }
  }

  lemma {:induction false} NonSpaceOfWord(w: string)
    requires forall i :: 0 <= i < |w| ==> !IsSpace(w[i])
    ensures NonSpace(w) == w
  {
    if |w| > 0 {
      NonSpaceOfWord(w[1..]);
    }
  }

  /** Splitting keeps every non-whitespace character, in order. */
  lemma {:induction false} WordsKeepContent(s: string)
    ensures Concat(Words(s)) == NonSpace(s)
    decreases |s|
  {
    if |s| == 0 {
    } else if IsSpace(s[0]) {
      WordsKeepContent(s[1..]);
    } else {
      var e := Span(s, 0, NotSpace);
      assert s == s[..e] + s[e..];
      NonSpaceAppend(s[..e], s[e..]);
      NonSpaceOfWord(s[..e]);
      WordsKeepContent(s[e..]);
    }
  }

  /** Joining with single spaces keeps every character of the words. */
  lemma {:induction false} JoinKeepsContent(ws: seq<string>)
    requires forall k :: 0 <= k < |ws| ==> IsWord(ws[k])
    ensures NonSpace(Join(" ", ws)) == Concat(ws)
  {
    if |ws| == 1 {
      NonSpaceOfWord(ws[0]);
    } else if |ws| > 1 {
      NonSpaceAppend(ws[0] + " ", Join(" ", ws[1..]));
      NonSpaceAppend(ws[0], " ");
      NonSpaceOfWord(ws[0]);
      JoinKeepsContent(ws[1..]);
    }
  }

  lemma WordsSkipsLeadingSpace(s: string)
    ensures Words(" " + s) == Words(s)
  {
    assert (" " + s)[1..] == s;
  }

  /** Splitting a single-space join gives the words back. */
  lemma {:induction false} WordsOfJoin(ws: seq<string>)
    requires forall k :: 0 <= k < |ws| ==> IsWord(ws[k])
    ensures Words(Join(" ", ws)) == ws
  {
    if |ws| == 0 {
    } else {
      var w := ws[0];
      var rest := Join(" ", ws[1..]);
      var s := Join(" ", ws);
      var tail := if |ws| == 1 then "" else " " + rest;
      assert s == w + tail;
      assert |tail| > 0 ==> tail[0] == ' ';
      var e := Span(s, 0, NotSpace);
      assert forall k :: 0 <= k < |w| ==> s[k] == w[k] && NotSpace(s[k]);
      assert |w| < |s| ==> s[|w|] == ' ' && !NotSpace(s[|w|]);
      assert e == |w|;
      assert s[..e] == w;
      assert s[e..] == tail;
      if |ws| > 1 {
        WordsSkipsLeadingSpace(rest);
        WordsOfJoin(ws[1..]);
      }
    }
  }

  // ------------------------------------------------------------- searching

  /** Pattern `p` occurs in `t` starting at index `k`. */
  predicate OccursAt(t: string, p: string, k: int) {
    0 <= k && k + |p| <= |t| && t[k..k + |p|] == p
  }

  /** The first index at or after `i` where `p` occurs in `t`. */
  function FindFrom(t: string, p: string, i: nat): (r: Option<nat>)
    ensures r.Some? ==> i <= r.value && OccursAt(t, p, r.value)
    ensures forall k :: i <= k && (r.None? || k < r.value) ==> !OccursAt(t, p, k)
    decreases |t| - i
  {
    if i + |p| > |t| then None
    else if t[i..i + |p|] == p then Some(i)
    else FindFrom(t, p, i + 1)
  }

  /** Python's `p in t`. */
  predicate Contains(t: string, p: string) {
    FindFrom(t, p, 0).Some?
  }

  lemma ContainsIff(t: string, p: string)
    ensures Contains(t, p) <==> exists k :: OccursAt(t, p, k)
  {
  }

  /** The last occurrence of `p` lying wholly inside `t[lo..hi]`. */
  function LastOccurrence(t: string, p: string, lo: nat, hi: nat): (r: Option<nat>)
    requires lo <= hi <= |t|
    ensures r.Some? ==> lo <= r.value && r.value + |p| <= hi && OccursAt(t, p, r.value)
    ensures forall k :: lo <= k && k + |p| <= hi && (r.None? || r.value < k) ==> !OccursAt(t, p, k)
    decreases hi - lo
  {
    if hi - lo < |p| then None
    else if OccursAt(t, p, hi - |p|) then Some(hi - |p|)
    else LastOccurrence(t, p, lo, hi - 1)
  }

  /** Python's `s.endswith(suffix)`. */
  predicate EndsWith(s: string, suffix: string) {
    |suffix| <= |s| && s[|s| - |suffix|..] == suffix
  }

  /** The index of the first `'\n'` at or after `i`, or the end of `t`: where
      a regular-expression `.*` started at `i` stops. */
  function LineEnd(t: string, i: nat): (e: nat)
    requires i <= |t|
    ensures i <= e <= |t|
    ensures e < |t| ==> t[e] == '\n'
    ensures forall j :: i <= j < e ==> t[j] != '\n'
  {
    Span(t, i, c => c != '\n')
  }

  /** `s.replace(c, "")`. */
  function RemoveChar(s: string, c: char): (r: string)
    ensures |r| <= |s|
    ensures forall i :: 0 <= i < |r| ==> r[i] != c
    ensures (forall i :: 0 <= i < |s| ==> s[i] != c) ==> r == s
    ensures forall i :: 0 <= i < |r| ==> exists j :: 0 <= j < |s| && s[j] == r[i]
    ensures |s| == 1 ==> r == (if s[0] == c then "" else s)
  {
    if |s| == 0 then ""
    else
      var rest := RemoveChar(s[1..], c);
      if s[0] == c then rest
      else
        var r := [s[0]] + rest;
        assert forall i :: 1 <= i < |r| ==> r[i] == rest[i - 1];
        r
  }

  /** Removing works piece by piece, so with the one-character cases of
      `RemoveChar` it keeps every other character, in order. */
  lemma {:induction false} RemoveCharAppend(a: string, b: string, c: char)
    ensures RemoveChar(a + b, c) == RemoveChar(a, c) + RemoveChar(b, c)
    decreases |a|
  {
    if |a| > 0 {
      assert (a + b)[1..] == a[1..] + b;
      RemoveCharAppend(a[1..], b, c);
    } else {
      assert a + b == b;
    }
  }

  /** `s.split(c)[0]`: the text before the first `c`. */
  function TakeUntil(s: string, c: char): (r: string)
    ensures |r| <= |s| && r == s[..|r|]
    ensures forall i :: 0 <= i < |r| ==> r[i] != c
    ensures |r| < |s| ==> s[|r|] == c
  {
    if |s| == 0 || s[0] == c then "" else [s[0]] + TakeUntil(s[1..], c)
  }
}
