/** The table pass of `strip_diacritics`: each rule of `DIACRITICS_RULES`
    rewrites characters of its class to one ASCII letter, in table order.
    The call `re.sub(pattern, replacement, result, re.UNICODE)` passes the flag
    where `count` goes, so each rule rewrites at most its first 32 matches. */
module Diacritics {
  import opened Wrappers

  /** One row of the table: a character class and its replacement. */
  datatype Rule = Rule(chars: set<char>, plain: char)

  /** The value of `re.UNICODE`, received as the replacement count. */
  const Cap: nat := 32

  const DiacriticsRules: seq<Rule> := [
    Rule({'ș', 'ş'}, 's'),
    Rule({'Ș', 'Ş'}, 'S'),
    Rule({'ț', 'ţ'}, 't'),
    Rule({'Ț', 'Ţ'}, 'T'),
    Rule({'ă', 'â'}, 'a'),
    Rule({'Ă', 'Â'}, 'A'),
    Rule({'î'}, 'i'),
    Rule({'Î'}, 'I')
  ]

  /** Classes are disjoint and no replacement belongs to any class, so a
      character is rewritten at most once whatever the order of the rules. */
  predicate WellFormed(rules: seq<Rule>) {
    && (forall k, j :: 0 <= k < |rules| && 0 <= j < |rules| ==> rules[j].plain !in rules[k].chars)
    && (forall k, j :: 0 <= k < j < |rules| ==> rules[k].chars !! rules[j].chars)
  }

  lemma DiacriticsWellFormed()
    ensures WellFormed(DiacriticsRules)
  {
    PlainLettersUnlisted();
    ClassesDisjoint();
  }

  lemma PlainLettersUnlisted()
    ensures forall k, j :: 0 <= k < |DiacriticsRules| && 0 <= j < |DiacriticsRules| ==> DiacriticsRules[j].plain !in DiacriticsRules[k].chars
  {
    assert forall j :: 0 <= j < |DiacriticsRules| ==> DiacriticsRules[j].plain as int < 128;
    assert forall k, c :: 0 <= k < |DiacriticsRules| && c in DiacriticsRules[k].chars ==> c as int >= 128;
  }

  lemma ClassesDisjoint()
    ensures forall k, j :: 0 <= k < j < |DiacriticsRules| ==> DiacriticsRules[k].chars !! DiacriticsRules[j].chars
  {
  }

  /** Number of characters of `s` in class `cls`. */
  function Count(s: string, cls: set<char>): nat
    decreases |s|
  {
    if |s| == 0 then 0 else (if s[0] in cls then 1 else 0) + Count(s[1..], cls)
  }

  /** `re.sub('[cls]', [rep], s, n)`: the first `n` characters of the class
      become `rep`. */
  function ReplaceUpTo(s: string, cls: set<char>, rep: char, n: nat): (r: string)
    ensures |r| == |s|
    decreases |s|
  {
    if |s| == 0 then ""
    else if s[0] in cls && n > 0 then [rep] + ReplaceUpTo(s[1..], cls, rep, n - 1)
    else [s[0]] + ReplaceUpTo(s[1..], cls, rep, n)
  }

  /** Position by position: a character is rewritten exactly when it is in
      the class and fewer than `n` class characters precede it. */
  lemma {:induction false} ReplaceUpToAt(s: string, cls: set<char>, rep: char, n: nat, i: nat)
    requires i < |s|
    ensures ReplaceUpTo(s, cls, rep, n)[i] == if s[i] in cls && Count(s[..i], cls) < n then rep else s[i]
    decreases |s|
  {
    if i > 0 {
      var n' := if s[0] in cls && n > 0 then n - 1 else n;
      ReplaceUpToAt(s[1..], cls, rep, n', i - 1);
      assert s[..i][1..] == s[1..][..i - 1];
      assert s[..i][0] == s[0];
    }
  }

  /** With a replacement outside the class, `max(0, c - n)` class characters
      survive out of `c`. */
  lemma {:induction false} ReplaceUpToCount(s: string, cls: set<char>, rep: char, n: nat)
    requires rep !in cls
    ensures Count(ReplaceUpTo(s, cls, rep, n), cls) == if Count(s, cls) <= n then 0 else Count(s, cls) - n
    decreases |s|
  {
    if |s| > 0 {
      var n' := if s[0] in cls && n > 0 then n - 1 else n;
      ReplaceUpToCount(s[1..], cls, rep, n');
      var r := ReplaceUpTo(s, cls, rep, n);
      assert r[1..] == ReplaceUpTo(s[1..], cls, rep, n');
    }
  }

  /** A class disjoint from the rewritten one, and not containing its
      replacement, keeps its count. */
  lemma {:induction false} ReplaceUpToOther(s: string, cls: set<char>, rep: char, n: nat, other: set<char>)
    requires cls !! other && rep !in other
    ensures Count(ReplaceUpTo(s, cls, rep, n), other) == Count(s, other)
    decreases |s|
  {
    if |s| > 0 {
      var n' := if s[0] in cls && n > 0 then n - 1 else n;
      ReplaceUpToOther(s[1..], cls, rep, n', other);
      var r := ReplaceUpTo(s, cls, rep, n);
      assert r[1..] == ReplaceUpTo(s[1..], cls, rep, n');
    }
  }

  /** The loop of `strip_diacritics` over the table, without `unidecode`. */
  function TablePass(s: string, rules: seq<Rule>): (r: string)
    ensures |r| == |s|
    decreases |rules|
  {
    if |rules| == 0 then s
    else TablePass(ReplaceUpTo(s, rules[0].chars, rules[0].plain, Cap), rules[1..])
  }

  /** The replacement the table lists for `c`, if any. */
  function Lookup(c: char, rules: seq<Rule>): (r: Option<char>)
    ensures r.Some? <==> exists k :: 0 <= k < |rules| && c in rules[k].chars
    ensures r.Some? ==> exists k :: FirstListing(c, rules, k) && r.value == rules[k].plain
    decreases |rules|
  {
    if |rules| == 0 then None
    else if c in rules[0].chars then Some(rules[0].plain)
    else
      var r := Lookup(c, rules[1..]);
      assert forall k :: 1 <= k < |rules| ==> rules[k] == rules[1..][k - 1];
      LookupShift(c, rules, r);
      r
  }

  /** Rule `k` is the first rule whose class lists `c`. */
  predicate FirstListing(c: char, rules: seq<Rule>, k: int) {
    0 <= k < |rules| && c in rules[k].chars && forall j :: 0 <= j < k ==> c !in rules[j].chars
  }

  lemma LookupShift(c: char, rules: seq<Rule>, r: Option<char>)
    requires |rules| > 0 && c !in rules[0].chars
    requires r.Some? ==> exists k :: FirstListing(c, rules[1..], k) && r.value == rules[1..][k].plain
    ensures r.Some? ==> exists k :: FirstListing(c, rules, k) && r.value == rules[k].plain
  {
    if r.Some? {
      var k :| FirstListing(c, rules[1..], k) && r.value == rules[1..][k].plain;
      assert rules[k + 1] == rules[1..][k];
      forall j | 0 <= j < k + 1
        ensures c !in rules[j].chars
      {
        if j > 0 {
          assert rules[j] == rules[1..][j - 1];
        }
      }
      assert FirstListing(c, rules, k + 1);
    }
  }

  lemma TailWellFormed(rules: seq<Rule>)
    requires |rules| > 0 && WellFormed(rules)
    ensures WellFormed(rules[1..])
  {
    assert forall k :: 0 <= k < |rules| - 1 ==> rules[1..][k] == rules[k + 1];
  }

  /** The pass changes only characters the table lists, each to its listed
      letter. */
  lemma {:induction false} TablePassChanges(s: string, rules: seq<Rule>, i: nat)
    requires WellFormed(rules) && i < |s|
    ensures var r := TablePass(s, rules);
      r[i] == s[i] || (Lookup(s[i], rules).Some? && r[i] == Lookup(s[i], rules).value)
    decreases |rules|
  {
    if |rules| > 0 {
      var head := rules[0];
      var s' := ReplaceUpTo(s, head.chars, head.plain, Cap);
      ReplaceUpToAt(s, head.chars, head.plain, Cap, i);
      TailWellFormed(rules);
      TablePassChanges(s', rules[1..], i);
      assert forall k :: 0 <= k < |rules| - 1 ==> rules[1..][k] == rules[k + 1];
      if s[i] in head.chars {
        assert Lookup(s[i], rules[1..]).None?;
      }
      assert Lookup(head.plain, rules[1..]).None?;
    }
  }

  /** For every rule, at most 32 of its characters are rewritten: `c`
      occurrences leave `max(0, c - 32)` behind. */
  lemma {:induction false} TablePassCount(s: string, rules: seq<Rule>, k: nat)
    requires WellFormed(rules) && k < |rules|
    ensures Count(TablePass(s, rules), rules[k].chars) == if Count(s, rules[k].chars) <= Cap then 0 else Count(s, rules[k].chars) - Cap
    decreases |rules|
  {
    var head := rules[0];
    var s' := ReplaceUpTo(s, head.chars, head.plain, Cap);
    TailWellFormed(rules);
    if k == 0 {
      ReplaceUpToCount(s, head.chars, head.plain, Cap);
      TablePassKeeps(s', rules[1..], head.chars);
    } else {
      ReplaceUpToOther(s, head.chars, head.plain, Cap, rules[k].chars);
      assert rules[1..][k - 1] == rules[k];
      TablePassCount(s', rules[1..], k - 1);
    }
  }

  /** Rules disjoint from a class, whose replacements lie outside it, keep
      that class's count. */
  lemma {:induction false} TablePassKeeps(s: string, rules: seq<Rule>, cls: set<char>)
    requires forall k :: 0 <= k < |rules| ==> rules[k].chars !! cls && rules[k].plain !in cls
    ensures Count(TablePass(s, rules), cls) == Count(s, cls)
    decreases |rules|
  {
    if |rules| > 0 {
      var s' := ReplaceUpTo(s, rules[0].chars, rules[0].plain, Cap);
      ReplaceUpToOther(s, rules[0].chars, rules[0].plain, Cap, cls);
      assert forall k :: 0 <= k < |rules| - 1 ==> rules[1..][k] == rules[k + 1];
      TablePassKeeps(s', rules[1..], cls);
    }
  }

  lemma {:induction false} CountAppend(a: string, b: string, cls: set<char>)
    ensures Count(a + b, cls) == Count(a, cls) + Count(b, cls)
    decreases |a|
  {
    if |a| == 0 {
      assert a + b == b;
    } else {
      assert (a + b)[1..] == a[1..] + b;
      CountAppend(a[1..], b, cls);
    }
  }

  /** A class character at `i` is preceded by fewer class characters than
      the whole string holds. */
  lemma CountBefore(s: string, cls: set<char>, i: nat)
    requires i < |s| && s[i] in cls
    ensures Count(s[..i], cls) < Count(s, cls)
  {
    assert s == s[..i] + s[i..];
    CountAppend(s[..i], s[i..], cls);
  }

  /** When no class occurs more than 32 times, the pass rewrites every listed
      character to its letter and leaves every other character alone. */
  lemma {:induction false} TablePassComplete(s: string, rules: seq<Rule>, i: nat)
    requires WellFormed(rules) && i < |s|
    requires forall k :: 0 <= k < |rules| ==> Count(s, rules[k].chars) <= Cap
    ensures TablePass(s, rules)[i] == Lookup(s[i], rules).GetOr(s[i])
    decreases |rules|
  {
    if |rules| > 0 {
      var head := rules[0];
      var s' := ReplaceUpTo(s, head.chars, head.plain, Cap);
      ReplaceUpToAt(s, head.chars, head.plain, Cap, i);
      if s[i] in head.chars {
        CountBefore(s, head.chars, i);
      }
      TailWellFormed(rules);
      assert forall k :: 0 <= k < |rules| - 1 ==> rules[1..][k] == rules[k + 1];
      forall k | 0 <= k < |rules| - 1
        ensures Count(s', rules[1..][k].chars) <= Cap
      {
        ReplaceUpToOther(s, head.chars, head.plain, Cap, rules[k + 1].chars);
      }
      TablePassComplete(s', rules[1..], i);
      assert Lookup(head.plain, rules[1..]).None?;
    }
  }

  lemma {:induction false} CountZero(s: string, cls: set<char>)
    requires Count(s, cls) == 0
    ensures forall i :: 0 <= i < |s| ==> s[i] !in cls
    decreases |s|
  {
    if |s| > 0 {
      CountZero(s[1..], cls);
      assert forall i :: 1 <= i < |s| ==> s[i] == s[1..][i - 1];
    }
  }

  /** A text with at most 32 characters from each Romanian class comes out
      of the pass with no Romanian diacritic left. */
  lemma NoDiacriticsLeft(s: string)
    requires forall k :: 0 <= k < |DiacriticsRules| ==> Count(s, DiacriticsRules[k].chars) <= Cap
    ensures var r := TablePass(s, DiacriticsRules);
      forall i, k :: 0 <= i < |r| && 0 <= k < |DiacriticsRules| ==> r[i] !in DiacriticsRules[k].chars
  {
    DiacriticsWellFormed();
    var r := TablePass(s, DiacriticsRules);
    forall k | 0 <= k < |DiacriticsRules|
      ensures forall i :: 0 <= i < |r| ==> r[i] !in DiacriticsRules[k].chars
    {
      TablePassCount(s, DiacriticsRules, k);
      CountZero(r, DiacriticsRules[k].chars);
    }
  }

  /** `strip_diacritics`: the table pass followed by the transliteration
      `unidecode`, which is taken as a parameter. */
  function StripDiacritics(text: string, translit: string -> string): string {
    translit(TablePass(text, DiacriticsRules))
  }
}
