/** `get_contacts`: e-mail addresses and fax/telephone numbers found in an
    article's lowered, stripped text, by `re.findall` over
    `CONTACT_EMAIL_PATTERN` and `CONTACT_TEL_FAX_PATTERN`. */
module Contacts {
  import opened Wrappers
  import opened Scan
  import opened Text

  // --------------------------------------------------------------- e-mail

  /** `[a-zA-Z0-9_.+-]` */
  predicate IsLocalChar(c: char) {
    IsLowerAscii(c) || IsUpperAscii(c) || IsDigit(c) || c == '_' || c == '.' || c == '+' || c == '-'
  }

  /** `[a-zA-Z0-9-]` */
  predicate IsDomainChar(c: char) {
    IsLowerAscii(c) || IsUpperAscii(c) || IsDigit(c) || c == '-'
  }

  /** Where the parts of an e-mail match lie: `s[start..at]` is the local
      part, `s[at]` the `@`, `s[at+1..dot]` the domain, `s[dot]` the dot and
      `s[dot+1..end]` the two to five character top-level part. */
  datatype EmailMatch = EmailMatch(start: nat, at: nat, dot: nat, end: nat)

  /** `s[m.start..m.end]` has the shape the e-mail pattern requires. */
  predicate EmailShape(s: string, m: EmailMatch) {
    && m.start < m.at && m.at + 1 < m.dot && m.dot + 3 <= m.end <= m.dot + 6 && m.end <= |s|
    && (forall k :: m.start <= k < m.at ==> IsLocalChar(s[k]))
    && s[m.at] == '@'
    && (forall k :: m.at < k < m.dot ==> IsDomainChar(s[k]))
    && s[m.dot] == '.'
    && (forall k :: m.dot < k < m.end ==> IsDomainChar(s[k]))
  }

  /** The match of `[a-zA-Z0-9_.+-]+@[a-zA-Z0-9-]+\.[a-zA-Z0-9-]{2,5}` at
      `i`. Neither `@` nor `.` belongs to the class before it, so the first
      two runs must be maximal; the last run is greedy up to five. */
  function EmailAt(s: string, i: nat): (r: Option<EmailMatch>)
    requires i <= |s|
    ensures r.Some? ==> r.value.start == i && EmailShape(s, r.value)
    ensures r.Some? && r.value.end < r.value.dot + 6 && r.value.end < |s| ==> !IsDomainChar(s[r.value.end])
  {
    var at := Span(s, i, IsLocalChar);
    if at == i || at >= |s| || s[at] != '@' then None
    else
      var dot := Span(s, at + 1, IsDomainChar);
      if dot == at + 1 || dot >= |s| || s[dot] != '.' then None
      else
        var run := Span(s, dot + 1, IsDomainChar) - (dot + 1);
        var top := if run < 5 then run else 5;
        if top < 2 then None else Some(EmailMatch(i, at, dot, dot + 1 + top))
  }

  /** Wherever an address has the pattern's shape, the match at its start
      has the same local part and domain and a top-level part at least as
      long: the match is the longest the pattern allows there. */
  lemma EmailComplete(s: string, m: EmailMatch)
    requires EmailShape(s, m)
    ensures var r := EmailAt(s, m.start);
      r.Some? && r.value.at == m.at && r.value.dot == m.dot && m.end <= r.value.end
  {
    SpanExact(s, m.start, m.at, IsLocalChar);
    SpanExact(s, m.at + 1, m.dot, IsDomainChar);
  }

  /** The leftmost e-mail match at or after `from`. */
  function SearchEmail(s: string, from: nat): (r: Option<EmailMatch>)
    requires from <= |s|
    ensures r.Some? ==> from <= r.value.start <= |s| && EmailAt(s, r.value.start) == r
    decreases |s| - from
  {
    var here := EmailAt(s, from);
    if here.Some? then here
    else if from == |s| then None
    else SearchEmail(s, from + 1)
  }

  /** The match found is the leftmost one: no match starts between `from`
      and it, nor anywhere after `from` when none is found. */
  lemma {:induction false} SearchEmailLeftmost(s: string, from: nat, i: nat)
    requires from <= i <= |s|
    requires var r := SearchEmail(s, from); r.None? || i < r.value.start
    ensures EmailAt(s, i).None?
    decreases i - from
  {
    if i > from {
      if EmailAt(s, from).Some? {
        assert false;
      }
      SearchEmailLeftmost(s, from + 1, i);
    }
  }

  /** `re.findall(CONTACT_EMAIL_PATTERN, s[from..])`. */
  function FindEmails(s: string, from: nat): (ms: seq<EmailMatch>)
    requires from <= |s|
    ensures forall m :: m in ms ==> from <= m.start && EmailShape(s, m)
    ensures forall k :: 0 <= k < |ms| - 1 ==> ms[k].end <= ms[k + 1].start
    decreases |s| - from
  {
    match SearchEmail(s, from)
    case None => []
    case Some(m) =>
      assert EmailAt(s, m.start) == Some(m);
      var rest := FindEmails(s, m.end);
      ConsMatches(s, from, m, rest);
      [m] + rest
  }

  lemma FindEmailsUnfold(s: string, from: nat)
    requires from <= |s|
    ensures SearchEmail(s, from).None? ==> FindEmails(s, from) == []
    ensures SearchEmail(s, from).Some? ==> var m := SearchEmail(s, from).value;
      m.end <= |s| && FindEmails(s, from) == [m] + FindEmails(s, m.end)
  {
  }

  /** The search as a function of the position alone. */
  function EmailSearch(s: string): nat -> Option<EmailMatch> {
    (i: nat) => if i <= |s| then SearchEmail(s, i) else None
  }

  function EmailEnd(m: EmailMatch): nat {
    m.end
  }

  lemma {:induction false} FindEmailsIsChain(s: string, from: nat)
    requires from <= |s|
    ensures Chain(EmailSearch(s), EmailEnd, from, FindEmails(s, from))
    decreases |s| - from
  {
    FindEmailsUnfold(s, from);
    if SearchEmail(s, from).Some? {
      var m := SearchEmail(s, from).value;
      FindEmailsIsChain(s, m.end);
      assert FindEmails(s, from)[1..] == FindEmails(s, m.end);
    }
  }

  /** `findall` is the chain of searches: the first match is the first
      search's, each next one is the search from where the previous match
      ended, and the search after the last finds nothing. */
  lemma FindEmailsChain(s: string, from: nat)
    requires from <= |s|
    ensures var ms := FindEmails(s, from);
      && (|ms| == 0 <==> SearchEmail(s, from).None?)
      && (|ms| > 0 ==> SearchEmail(s, from) == Some(ms[0]))
      && (forall k :: 0 <= k < |ms| - 1 ==> ms[k].end <= |s| && SearchEmail(s, ms[k].end) == Some(ms[k + 1]))
      && (|ms| > 0 ==> ms[|ms| - 1].end <= |s| && SearchEmail(s, ms[|ms| - 1].end).None?)
  {
    var ms := FindEmails(s, from);
    FindEmailsUnfold(s, from);
    forall k | 0 <= k < |ms| - 1
      ensures ms[k].end <= |s| && SearchEmail(s, ms[k].end) == Some(ms[k + 1])
    {
      FindEmailsNext(s, from, k);
    }
    if |ms| > 0 {
      FindEmailsLast(s, from);
    }
  }

  lemma FindEmailsNext(s: string, from: nat, k: nat)
    requires from <= |s|
    requires k + 1 < |FindEmails(s, from)|
    ensures var ms := FindEmails(s, from);
      ms[k].end <= |s| && SearchEmail(s, ms[k].end) == Some(ms[k + 1])
  {
    var ms := FindEmails(s, from);
    FindEmailsIsChain(s, from);
    assert ms[k] in ms;
    ChainNext(EmailSearch(s), EmailEnd, from, ms, k);
  }

  lemma FindEmailsLast(s: string, from: nat)
    requires from <= |s|
    requires |FindEmails(s, from)| > 0
    ensures var ms := FindEmails(s, from);
      ms[|ms| - 1].end <= |s| && SearchEmail(s, ms[|ms| - 1].end).None?
  {
    var ms := FindEmails(s, from);
    FindEmailsIsChain(s, from);
    assert ms[|ms| - 1] in ms;
    ChainLast(EmailSearch(s), EmailEnd, from, ms);
  }

  lemma ConsMatches(s: string, from: nat, m: EmailMatch, rest: seq<EmailMatch>)
    requires from <= m.start && EmailShape(s, m)
    requires forall x :: x in rest ==> m.end <= x.start && EmailShape(s, x)
    requires forall k :: 0 <= k < |rest| - 1 ==> rest[k].end <= rest[k + 1].start
    ensures var ms := [m] + rest;
      && (forall x :: x in ms ==> from <= x.start && EmailShape(s, x))
      && (forall k :: 0 <= k < |ms| - 1 ==> ms[k].end <= ms[k + 1].start)
  {
    var ms := [m] + rest;
    forall k | 0 <= k < |ms| - 1
      ensures ms[k].end <= ms[k + 1].start
    {
      assert ms[k + 1] == rest[k];
      if k > 0 {
        assert ms[k] == rest[k - 1];
      }
    }
  }

  // ------------------------------------------------------------ telephone

  /** `(\d| |\.)` */
  predicate IsNumberChar(c: char) {
    IsDigit(c) || c == ' ' || c == '.'
  }

  /** Where the parts of a telephone match lie: the keyword (group 2) starts
      at `start`, the number (group 3) is `s[numStart..numEnd]`. */
  datatype PhoneMatch = PhoneMatch(start: nat, key: string, numStart: nat, numEnd: nat)

  /** The largest `k` in `lo..hi` with a digit at `base + k`. */
  function LastDigitStep(s: string, base: nat, lo: nat, hi: int): (r: Option<nat>)
    requires base + hi < |s|
    ensures r.Some? ==> lo <= r.value <= hi && IsDigit(s[base + r.value])
    ensures forall j :: base + lo <= j <= base + hi && (r.None? || base + r.value < j) ==> !IsDigit(s[j])
    decreases hi - lo
  {
    if hi < lo then None
    else if IsDigit(s[base + hi]) then Some(hi)
    else LastDigitStep(s, base, lo, hi - 1)
  }

  /** `s[m.numStart..m.numEnd]` has the shape of group 3, and the keyword
      is followed by one to ten non-digits up to it. */
  predicate PhoneShape(s: string, m: PhoneMatch) {
    && m.numStart + 10 <= m.numEnd <= m.numStart + 13 && m.numEnd <= |s|
    && OccursAt(s, m.key, m.start)
    && m.start + |m.key| < m.numStart <= m.start + |m.key| + 10
    && (forall k :: m.start + |m.key| <= k < m.numStart ==> !IsDigit(s[k]))
    && IsDigit(s[m.numStart]) && IsDigit(s[m.numEnd - 1])
    && (forall k :: m.numStart < k < m.numEnd - 1 ==> IsNumberChar(s[k]))
  }

  /** `kw[^\d]{1,10}(\d(\d| |\.){8,11}\d)` at `i` for one keyword. The
      non-digit run must be whole, since a digit has to follow it; the
      middle repetition backs off from eleven until a digit follows. */
  function PhoneWith(s: string, i: nat, kw: string): (r: Option<PhoneMatch>)
    requires i <= |s|
    ensures r.Some? ==> r.value.start == i && r.value.key == kw && PhoneShape(s, r.value)
  {
    if !OccursAt(s, kw, i) then None
    else
      var p := i + |kw|;
      var d := Span(s, p, NotDigit);
      if d == p || d - p > 10 || d >= |s| then None
      else
        var run := Span(s, d + 1, IsNumberChar) - (d + 1);
        var hi := if run - 1 < 11 then run - 1 else 11;
        match LastDigitStep(s, d + 1, 8, hi)
        case None => None
        case Some(k) => Some(PhoneMatch(i, kw, d, d + 2 + k))
  }

  /** Wherever a keyword is followed by the pattern's shape, the match for
      that keyword there starts its number at the same place and ends it no
      earlier: the middle repetition is greedy. */
  lemma PhoneWithComplete(s: string, m: PhoneMatch)
    requires PhoneShape(s, m)
    ensures var r := PhoneWith(s, m.start, m.key);
      r.Some? && r.value.numStart == m.numStart && m.numEnd <= r.value.numEnd
  {
    var p := m.start + |m.key|;
    SpanExact(s, p, m.numStart, NotDigit);
    var d := m.numStart;
    var e := Span(s, d + 1, IsNumberChar);
    var run := e - (d + 1);
    var hi := if run - 1 < 11 then run - 1 else 11;
    var c := m.numEnd - d - 2;
    assert 8 <= c <= hi && IsDigit(s[d + 1 + c]);
  }

  /** The keywords in the order the alternation tries them. */
  const Keywords: seq<string> := ["fax", "telefon", "tel"]

  /** The telephone match at `i`: the keywords are tried in order and a later
      one is tried when the rest of the pattern fails after an earlier one. */
  function PhoneAt(s: string, i: nat): (r: Option<PhoneMatch>)
    requires i <= |s|
    ensures r.Some? ==> r.value.key in Keywords && r.value.start == i && PhoneShape(s, r.value)
  {
    match PhoneWith(s, i, "fax")
    case Some(m) => Some(m)
    case None =>
      match PhoneWith(s, i, "telefon")
      case Some(m) => Some(m)
      case None => PhoneWith(s, i, "tel")
  }

  /** The keywords are tried in the order of `Keywords`: the first for
      which the rest of the pattern matches wins. */
  lemma PhoneAtOrder(s: string, i: nat)
    requires i <= |s|
    ensures PhoneWith(s, i, "fax").Some? ==> PhoneAt(s, i) == PhoneWith(s, i, "fax")
    ensures PhoneWith(s, i, "fax").None? && PhoneWith(s, i, "telefon").Some? ==> PhoneAt(s, i) == PhoneWith(s, i, "telefon")
    ensures PhoneWith(s, i, "fax").None? && PhoneWith(s, i, "telefon").None? ==> PhoneAt(s, i) == PhoneWith(s, i, "tel")
  {
  }

  function SearchPhone(s: string, from: nat): (r: Option<PhoneMatch>)
    requires from <= |s|
    ensures r.Some? ==> from <= r.value.start <= |s| && PhoneAt(s, r.value.start) == r
    decreases |s| - from
  {
    var here := PhoneAt(s, from);
    if here.Some? then here
    else if from == |s| then None
    else SearchPhone(s, from + 1)
  }

  /** The match found is the leftmost one: no match starts between `from`
      and it, nor anywhere after `from` when none is found. */
  lemma {:induction false} SearchPhoneLeftmost(s: string, from: nat, i: nat)
    requires from <= i <= |s|
    requires var r := SearchPhone(s, from); r.None? || i < r.value.start
    ensures PhoneAt(s, i).None?
    decreases i - from
  {
    if i > from {
      if PhoneAt(s, from).Some? {
        assert false;
      }
      SearchPhoneLeftmost(s, from + 1, i);
    }
  }

  /** `re.findall(CONTACT_TEL_FAX_PATTERN, s[from..])`. */
  function FindPhones(s: string, from: nat): (ms: seq<PhoneMatch>)
    requires from <= |s|
    ensures forall m :: m in ms ==> from <= m.start && PhoneShape(s, m) && m.key in Keywords
    ensures forall k :: 0 <= k < |ms| - 1 ==> ms[k].numEnd <= ms[k + 1].start
    decreases |s| - from
  {
    match SearchPhone(s, from)
    case None => []
    case Some(m) =>
      assert PhoneAt(s, m.start) == Some(m);
      var rest := FindPhones(s, m.numEnd);
      ConsPhones(s, from, m, rest);
      [m] + rest
  }

  lemma FindPhonesUnfold(s: string, from: nat)
    requires from <= |s|
    ensures SearchPhone(s, from).None? ==> FindPhones(s, from) == []
    ensures SearchPhone(s, from).Some? ==> var m := SearchPhone(s, from).value;
      m.numEnd <= |s| && FindPhones(s, from) == [m] + FindPhones(s, m.numEnd)
  {
  }

  /** The search as a function of the position alone. */
  function PhoneSearch(s: string): nat -> Option<PhoneMatch> {
    (i: nat) => if i <= |s| then SearchPhone(s, i) else None
  }

  function PhoneEnd(m: PhoneMatch): nat {
    m.numEnd
  }

  lemma {:induction false} FindPhonesIsChain(s: string, from: nat)
    requires from <= |s|
    ensures Chain(PhoneSearch(s), PhoneEnd, from, FindPhones(s, from))
    decreases |s| - from
  {
    FindPhonesUnfold(s, from);
    if SearchPhone(s, from).Some? {
      var m := SearchPhone(s, from).value;
      FindPhonesIsChain(s, m.numEnd);
      assert FindPhones(s, from)[1..] == FindPhones(s, m.numEnd);
    }
  }

  /** `findall` is the chain of searches: the first match is the first
      search's, each next one is the search from where the previous match
      ended, and the search after the last finds nothing. */
  lemma FindPhonesChain(s: string, from: nat)
    requires from <= |s|
    ensures var ms := FindPhones(s, from);
      && (|ms| == 0 <==> SearchPhone(s, from).None?)
      && (|ms| > 0 ==> SearchPhone(s, from) == Some(ms[0]))
      && (forall k :: 0 <= k < |ms| - 1 ==> ms[k].numEnd <= |s| && SearchPhone(s, ms[k].numEnd) == Some(ms[k + 1]))
      && (|ms| > 0 ==> ms[|ms| - 1].numEnd <= |s| && SearchPhone(s, ms[|ms| - 1].numEnd).None?)
  {
    var ms := FindPhones(s, from);
    FindPhonesUnfold(s, from);
    forall k | 0 <= k < |ms| - 1
      ensures ms[k].numEnd <= |s| && SearchPhone(s, ms[k].numEnd) == Some(ms[k + 1])
    {
      FindPhonesNext(s, from, k);
    }
    if |ms| > 0 {
      FindPhonesLast(s, from);
    }
  }

  lemma FindPhonesNext(s: string, from: nat, k: nat)
    requires from <= |s|
    requires k + 1 < |FindPhones(s, from)|
    ensures var ms := FindPhones(s, from);
      ms[k].numEnd <= |s| && SearchPhone(s, ms[k].numEnd) == Some(ms[k + 1])
  {
    var ms := FindPhones(s, from);
    FindPhonesIsChain(s, from);
    assert ms[k] in ms;
    ChainNext(PhoneSearch(s), PhoneEnd, from, ms, k);
  }

  lemma FindPhonesLast(s: string, from: nat)
    requires from <= |s|
    requires |FindPhones(s, from)| > 0
    ensures var ms := FindPhones(s, from);
      ms[|ms| - 1].numEnd <= |s| && SearchPhone(s, ms[|ms| - 1].numEnd).None?
  {
    var ms := FindPhones(s, from);
    FindPhonesIsChain(s, from);
    assert ms[|ms| - 1] in ms;
    ChainLast(PhoneSearch(s), PhoneEnd, from, ms);
  }

  lemma ConsPhones(s: string, from: nat, m: PhoneMatch, rest: seq<PhoneMatch>)
    requires from <= m.start && PhoneShape(s, m) && m.key in Keywords
    requires forall x :: x in rest ==> m.numEnd <= x.start && PhoneShape(s, x) && x.key in Keywords
    requires forall k :: 0 <= k < |rest| - 1 ==> rest[k].numEnd <= rest[k + 1].start
    ensures var ms := [m] + rest;
      && (forall x :: x in ms ==> from <= x.start && PhoneShape(s, x) && x.key in Keywords)
      && (forall k :: 0 <= k < |ms| - 1 ==> ms[k].numEnd <= ms[k + 1].start)
  {
    var ms := [m] + rest;
    forall k | 0 <= k < |ms| - 1
      ensures ms[k].numEnd <= ms[k + 1].start
    {
      assert ms[k + 1] == rest[k];
      if k > 0 {
        assert ms[k] == rest[k - 1];
      }
    }
  }

  /** The digits of `s`, in order. */
  function DigitsOf(s: string): string {
    if |s| == 0 then ""
    else (if IsDigit(s[0]) then [s[0]] else []) + DigitsOf(s[1..])
  }

  /** Removing the spaces and the dots of a run of digits, spaces and dots
      leaves its digits. */
  lemma {:induction false} NumberCharsToDigits(raw: string)
    requires forall k :: 0 <= k < |raw| ==> IsNumberChar(raw[k])
    ensures RemoveChar(RemoveChar(raw, ' '), '.') == DigitsOf(raw)
  {
    if |raw| > 0 {
      var head := raw[..1];
      assert raw == head + raw[1..];
      RemoveCharAppend(head, raw[1..], ' ');
      RemoveCharAppend(RemoveChar(head, ' '), RemoveChar(raw[1..], ' '), '.');
      NumberCharsToDigits(raw[1..]);
      if RemoveChar(head, ' ') != "" {
        assert RemoveChar(head, ' ') == head;
      }
    }
  }

  /** `number[2].replace(' ', '').replace('.', '')`. */
  function NumberValue(s: string, m: PhoneMatch): (v: string)
    requires PhoneShape(s, m)
    ensures forall k :: 0 <= k < |v| ==> IsDigit(v[k])
    ensures |v| <= m.numEnd - m.numStart
    ensures v == DigitsOf(s[m.numStart..m.numEnd])
  {
    var raw := s[m.numStart..m.numEnd];
    assert forall k :: 0 <= k < |raw| ==> raw[k] == s[m.numStart + k] && IsNumberChar(raw[k]);
    var spaceless := RemoveChar(raw, ' ');
    RemoveCharKeeps(raw, ' ', IsNumberChar);
    var v := RemoveChar(spaceless, '.');
    RemoveCharKeeps(spaceless, '.', c => IsNumberChar(c) && c != ' ');
    NumberCharsToDigits(raw);
    v
  }

  lemma RemoveCharKeeps(s: string, c: char, p: char -> bool)
    requires forall k :: 0 <= k < |s| ==> p(s[k])
    ensures forall k :: 0 <= k < |RemoveChar(s, c)| ==> p(RemoveChar(s, c)[k]) && RemoveChar(s, c)[k] != c
  {
  }

  // ------------------------------------------------------------ assembling

  /** The dictionary `get_contacts` builds, with the e-mails as the set they
      are collected into before being joined. */
  datatype Contact = Contact(emails: set<string>, numbers: map<string, string>)

  /** The loop over the numbers: the first number of a keyword opens a list;
      a second one calls `.push`, which Python lists lack. */
  function Collect(entries: seq<(string, string)>): (r: Result<map<string, string>, Raised>)
    ensures r.Success? <==> forall i, j :: 0 <= i < j < |entries| ==> entries[i].0 != entries[j].0
    ensures r.Failure? ==> r.error == AttributeError
    ensures r.Success? ==> r.value.Keys == set i | 0 <= i < |entries| :: entries[i].0
    decreases |entries|
  {
    if |entries| == 0 then Success(map[])
    else
      var init := entries[..|entries| - 1];
      var last := entries[|entries| - 1];
      var prev := Collect(init);
      assert forall i :: 0 <= i < |init| ==> init[i] == entries[i];
      if prev.Failure? then prev
      else if last.0 in prev.value then Failure(AttributeError)
      else Success(prev.value[last.0 := last.1])
  }

  /** Each keyword maps to the number found after it. */
  lemma {:induction false} CollectValues(entries: seq<(string, string)>)
    ensures var r := Collect(entries);
      r.Success? ==> forall i :: 0 <= i < |entries| ==> r.value[entries[i].0] == entries[i].1
    decreases |entries|
  {
    var r := Collect(entries);
    if |entries| > 0 && r.Success? {
      var init := entries[..|entries| - 1];
      var last := entries[|entries| - 1];
      CollectValues(init);
      var prev := Collect(init);
      CollectStep(entries);
      forall i | 0 <= i < |entries|
        ensures r.value[entries[i].0] == entries[i].1
      {
        if i < |init| {
          assert entries[i] == init[i];
          assert init[i].0 in prev.value.Keys;
        }
      }
    }
  }

  lemma CollectStep(entries: seq<(string, string)>)
    requires |entries| > 0 && Collect(entries).Success?
    ensures var prev := Collect(entries[..|entries| - 1]); var last := entries[|entries| - 1];
      prev.Success? && last.0 !in prev.value && Collect(entries).value == prev.value[last.0 := last.1]
  {
  }

  function Emails(t: string): (r: set<string>)
  {
    var ms := FindEmails(t, 0);
    set k | 0 <= k < |ms| :: t[ms[k].start..ms[k].end]
  }

  function PhoneEntries(t: string): (r: seq<(string, string)>)
    ensures forall k :: 0 <= k < |r| ==> r[k].0 in Keywords && forall j :: 0 <= j < |r[k].1| ==> IsDigit(r[k].1[j])
    ensures |r| == |FindPhones(t, 0)|
  {
    var ms := FindPhones(t, 0);
    assert forall k :: 0 <= k < |ms| ==> ms[k] in ms;
    var r := seq(|ms|, k requires 0 <= k < |ms| => (ms[k].key, NumberValue(t, ms[k])));
    assert forall k :: 0 <= k < |r| ==> r[k].0 == ms[k].key && r[k].1 == NumberValue(t, ms[k]);
    r
  }

  /** Entry `k` pairs the keyword of the `k`-th number found with that
      number's digits. */
  lemma PhoneEntriesOf(t: string, k: nat)
    requires k < |FindPhones(t, 0)|
    ensures var m := FindPhones(t, 0)[k];
      && PhoneShape(t, m)
      && PhoneEntries(t)[k] == (m.key, DigitsOf(t[m.numStart..m.numEnd]))
  {
    var ms := FindPhones(t, 0);
    assert ms[k] in ms;
  }

  /** `get_contacts(text)`. */
  function GetContacts(text: string): (r: Result<Contact, Raised>)
    ensures var entries := PhoneEntries(Lower(Strip(text)));
      r.Success? <==> forall i, j :: 0 <= i < j < |entries| ==> entries[i].0 != entries[j].0
    ensures r.Failure? ==> r.error == AttributeError
  {
    var t := Lower(Strip(text));
    var entries := PhoneEntries(t);
    match Collect(entries)
    case Failure(e) => Failure(e)
    case Success(numbers) => Success(Contact(Emails(t), numbers))
  }

  // ----------------------------------------------------------- properties

  /** The numbers are keyed by the keyword that introduced them and consist
      of digits only. */
  lemma GetContactsNumbers(text: string)
    ensures var r := GetContacts(text);
      r.Success? ==> forall k :: k in r.value.numbers ==>
        k in Keywords && forall j :: 0 <= j < |r.value.numbers[k]| ==> IsDigit(r.value.numbers[k][j])
  {
    var entries := PhoneEntries(Lower(Strip(text)));
    var c := Collect(entries);
    if c.Success? {
      forall k | k in c.value
        ensures k in Keywords && forall j :: 0 <= j < |c.value[k]| ==> IsDigit(c.value[k][j])
      {
        assert k in c.value.Keys;
        var i :| 0 <= i < |entries| && entries[i].0 == k;
        CollectValues(entries);
      }
    }
  }

  /** Texts that agree after lowering give the same contacts: addresses
      differing only in letter case collapse into one. */
  lemma ContactsIgnoreCase(a: string, b: string)
    requires Lower(a) == Lower(b)
    ensures GetContacts(a) == GetContacts(b)
  {
    StripLowerCommute(a);
    StripLowerCommute(b);
  }

  /** Every address found is already in lower case. */
  lemma EmailsLowercase(text: string)
    ensures var t := Lower(Strip(text));
      forall e :: e in Emails(t) ==> Lower(e) == e
  {
    var x := Strip(text);
    var t := Lower(x);
    var ms := FindEmails(t, 0);
    LoweredMatches(x, ms);
  }

  lemma LoweredMatches(x: string, ms: seq<EmailMatch>)
    requires forall m :: m in ms ==> m.start <= m.end <= |x|
    ensures forall k :: 0 <= k < |ms| ==> var e := Lower(x)[ms[k].start..ms[k].end]; Lower(e) == e
  {
    forall k | 0 <= k < |ms|
      ensures var e := Lower(x)[ms[k].start..ms[k].end]; Lower(e) == e
    {
      var m := ms[k];
      assert m in ms;
      LowerSlice(x, m.start, m.end);
      LowerIdempotent(x[m.start..m.end]);
    }
  }

  /** "telefon" directly followed by a digit leaves no room for the required
      non-digit, so the match falls back to "tel" with "efon" as the gap. */
  lemma TelefonGluedFallsBack(s: string, i: nat)
    requires OccursAt(s, "telefon", i) && i + 7 < |s| && IsDigit(s[i + 7])
    ensures PhoneAt(s, i) == PhoneWith(s, i, "tel")
    ensures PhoneAt(s, i).Some? ==> PhoneAt(s, i).value.numStart == i + 7
  {
    assert s[i] == 't';
    assert !OccursAt(s, "fax", i);
    assert Span(s, i + 7, NotDigit) == i + 7;
    assert PhoneWith(s, i, "telefon").None?;
    var p := PhoneWith(s, i, "tel");
    if p.Some? {
      assert forall k :: i + 3 <= k < i + 7 ==> s[k] == "telefon"[k - i];
      SpanExact(s, i + 3, i + 7, NotDigit);
    }
  }
}
