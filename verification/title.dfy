/** `clean_title`: titles spelled with spaced-out letters ("H O T A R A R E
    privind ...") get their leading single-letter words glued together. */
module Title {
  import opened Text
  import opened Numerals
  import opened Classify

  /** The loop of `clean_title`: the index of the first word longer than one
      character, or 0 when there is none. */
  function FirstLong(parts: seq<string>): (idx: nat)
    ensures idx <= |parts|
    ensures idx > 0 ==> idx < |parts| && |parts[idx]| > 1
    ensures forall i :: 0 <= i < idx ==> |parts[i]| <= 1
    ensures idx == 0 ==> |parts| == 0 || |parts[0]| > 1 || forall i :: 0 <= i < |parts| ==> |parts[i]| <= 1
  {
    FirstLongFrom(parts, 0)
  }

  function FirstLongFrom(parts: seq<string>, i: nat): (idx: nat)
    requires i <= |parts|
    requires forall j :: 0 <= j < i ==> |parts[j]| <= 1
    ensures idx == 0 || (i <= idx < |parts| && |parts[idx]| > 1)
    ensures forall j :: 0 <= j < idx ==> |parts[j]| <= 1
    ensures idx == 0 ==> (i == 0 && |parts| > 0 && |parts[0]| > 1) || forall j :: 0 <= j < |parts| ==> |parts[j]| <= 1
    decreases |parts| - i
  {
    if i == |parts| then 0
    else if |parts[i]| > 1 then i
    else FirstLongFrom(parts, i + 1)
  }

  /** `clean_title` as written: `'%s %s' % (''.join(parts[:idx]),
      ' '.join(parts[idx:]))`. With `idx == 0` the first half is empty, so
      the result starts with a space. */
  function CleanTitle(text: string): (r: string)
  {
    var parts := Words(text);
    var idx := FirstLong(parts);
    Concat(parts[..idx]) + " " + Join(" ", parts[idx..])
  }

  /** `clean_title` with the separator only where there is a merged prefix. */
  function CleanTitleFixed(text: string): (r: string)
  {
    var parts := Words(text);
    var idx := FirstLong(parts);
    if idx == 0 then Join(" ", parts)
    else Concat(parts[..idx]) + " " + Join(" ", parts[idx..])
  }

  // ------------------------------------------------------------ helpers

  lemma JoinCons(w: string, ws: seq<string>)
    requires |ws| > 0
    ensures Join(" ", [w] + ws) == w + " " + Join(" ", ws)
  {
    assert ([w] + ws)[1..] == ws;
  }

  lemma {:induction false} ConcatLetters(ws: seq<string>)
    requires forall k :: 0 <= k < |ws| ==> IsWord(ws[k]) && |ws[k]| <= 1
    ensures |Concat(ws)| == |ws|
    ensures forall i :: 0 <= i < |Concat(ws)| ==> !IsSpace(Concat(ws)[i])
  {
    if |ws| > 0 {
      ConcatLetters(ws[1..]);
      var c := Concat(ws);
      assert c == ws[0] + Concat(ws[1..]);
      assert forall i :: 1 <= i < |c| ==> c[i] == Concat(ws[1..])[i - 1];
      assert |ws[0]| == 1 && c[0] == ws[0][0];
    }
  }

  /** The words of the merged title: the glued prefix, then the rest. */
  lemma WordsOfMerged(parts: seq<string>, idx: nat)
    requires forall k :: 0 <= k < |parts| ==> IsWord(parts[k])
    requires 0 < idx < |parts| && forall i :: 0 <= i < idx ==> |parts[i]| <= 1
    ensures var c := Concat(parts[..idx]);
      && IsWord(c) && |c| == idx
      && c + " " + Join(" ", parts[idx..]) == Join(" ", [c] + parts[idx..])
      && Words(c + " " + Join(" ", parts[idx..])) == [c] + parts[idx..]
  {
    var c := Concat(parts[..idx]);
    ConcatLetters(parts[..idx]);
    JoinCons(c, parts[idx..]);
    WordsOfJoin([c] + parts[idx..]);
  }

  // ----------------------------------------------------------- properties

  /** What the title looks like after cleaning: when no prefix is merged it is
      one space followed by the words joined by single spaces; otherwise its
      words are the glued single letters followed by the remaining words. */
  lemma CleanTitleShape(text: string)
    ensures var parts := Words(text);
      FirstLong(parts) == 0 ==> CleanTitle(text) == " " + Join(" ", parts)
    ensures var parts := Words(text); var idx := FirstLong(parts);
      idx > 0 ==> Words(CleanTitle(text)) == [Concat(parts[..idx])] + parts[idx..]
  {
    var parts := Words(text);
    var idx := FirstLong(parts);
    if idx == 0 {
      NothingMerged(parts);
    } else {
      WordsOfMerged(parts, idx);
    }
  }

  lemma NothingMerged(parts: seq<string>)
    ensures Concat(parts[..0]) + " " + Join(" ", parts[0..]) == " " + Join(" ", parts)
  {
    assert parts[..0] == [] && parts[0..] == parts;
  }

  /** A title made only of single letters is not collapsed into one word:
      every letter stays a word of its own. */
  lemma AllSingleLettersKept(text: string)
    requires forall k :: 0 <= k < |Words(text)| ==> |Words(text)[k]| == 1
    ensures Words(CleanTitle(text)) == Words(text)
  {
    var parts := Words(text);
    assert parts[..0] == [] && parts[0..] == parts;
    WordsSkipsLeadingSpace(Join(" ", parts));
    WordsOfJoin(parts);
  }

  /** Cleaning neither drops nor reorders any visible character. */
  lemma CleanTitleKeepsContent(text: string)
    ensures NonSpace(CleanTitle(text)) == NonSpace(text)
    ensures NonSpace(CleanTitleFixed(text)) == NonSpace(text)
  {
    var parts := Words(text);
    var idx := FirstLong(parts);
    WordsKeepContent(text);
    assert parts == parts[..idx] + parts[idx..];
    ConcatAppend(parts[..idx], parts[idx..]);
    JoinKeepsContent(parts[idx..]);
    NonSpaceAppend(Concat(parts[..idx]) + " ", Join(" ", parts[idx..]));
    NonSpaceAppend(Concat(parts[..idx]), " ");
    ConcatNoSpace(parts[..idx]);
    NonSpaceOfWord(Concat(parts[..idx]));
    if idx == 0 {
      assert parts[0..] == parts;
    }
  }

  lemma {:induction false} ConcatNoSpace(ws: seq<string>)
    requires forall k :: 0 <= k < |ws| ==> IsWord(ws[k])
    ensures forall i :: 0 <= i < |Concat(ws)| ==> !IsSpace(Concat(ws)[i])
  {
    if |ws| > 0 {
      ConcatNoSpace(ws[1..]);
      var c := Concat(ws);
      assert forall i :: |ws[0]| <= i < |c| ==> c[i] == Concat(ws[1..])[i - |ws[0]|];
    }
  }

  /** The corrected cleaning is the written one with surrounding whitespace
      stripped. */
  lemma FixedIsStripped(text: string)
    ensures CleanTitleFixed(text) == Strip(CleanTitle(text))
  {
    var parts := Words(text);
    var idx := FirstLong(parts);
    var fixed := CleanTitleFixed(text);
    if idx == 0 {
      assert parts[..0] == [] && parts[0..] == parts;
      assert CleanTitle(text) == " " + fixed;
      StripLeadingSpace(fixed);
      NoOuterSpace(parts);
      if |fixed| > 0 {
        StripUnchanged(fixed);
      }
    } else {
      WordsOfMerged(parts, idx);
      NoOuterSpace([Concat(parts[..idx])] + parts[idx..]);
      StripUnchanged(fixed);
    }
  }

  /** A single-space join of words neither starts nor ends with whitespace. */
  lemma {:induction false} NoOuterSpace(ws: seq<string>)
    requires forall k :: 0 <= k < |ws| ==> IsWord(ws[k])
    ensures var s := Join(" ", ws);
      (|ws| == 0 <==> |s| == 0) && (|s| > 0 ==> !IsSpace(s[0]) && !IsSpace(s[|s| - 1]))
  {
    if |ws| > 1 {
      NoOuterSpace(ws[1..]);
    }
  }

  /** The corrected cleaning never starts with whitespace. */
  lemma FixedNoLeadingSpace(text: string)
    ensures var r := CleanTitleFixed(text); |r| > 0 ==> !IsSpace(r[0])
  {
    FixedIsStripped(text);
  }

  /** Cleaning the corrected output again changes nothing. */
  lemma FixedIdempotent(text: string)
    ensures CleanTitleFixed(CleanTitleFixed(text)) == CleanTitleFixed(text)
  {
    var parts := Words(text);
    var idx := FirstLong(parts);
    var fixed := CleanTitleFixed(text);
    if idx == 0 {
      WordsOfJoin(parts);
    } else {
      WordsOfMerged(parts, idx);
      var ws := [Concat(parts[..idx])] + parts[idx..];
      assert Words(fixed) == ws;
      if idx == 1 {
        assert ws == parts by {
          assert parts[..1] == [parts[0]];
          assert [parts[0]][1..] == [];
          assert Concat([parts[0]]) == parts[0] + "" == parts[0];
          assert parts == [parts[0]] + parts[1..];
        }
      } else {
        assert FirstLong(ws) == 0;
        assert ws[1..] == parts[idx..];
        WordsOfJoin(ws);
      }
    }
  }

  /** The written cleaning is not idempotent: "H O TARE" becomes "HO TARE",
      which in turn becomes " HO TARE". */
  lemma CleanTitleNotIdempotent()
    ensures CleanTitle("H O TARE") == "HO TARE"
    ensures CleanTitle(CleanTitle("H O TARE")) == " HO TARE"
  {
    CleanSpaced();
    CleanGlued();
  }

  lemma CleanSpaced()
    ensures CleanTitle("H O TARE") == "HO TARE"
  {
    SpacedWords();
    var parts := ["H", "O", "TARE"];
    assert FirstLong(parts) == 2;
    assert parts[..2] == ["H", "O"];
    assert parts[2..] == ["TARE"];
    assert Concat(["H", "O"]) == "HO" by {
      assert ["H", "O"][1..] == ["O"];
      assert ["O"][1..] == [];
    }
  }

  lemma CleanGlued()
    ensures CleanTitle("HO TARE") == " HO TARE"
  {
    GluedWords();
    var parts := ["HO", "TARE"];
    assert FirstLong(parts) == 0;
    assert parts[..0] == [] && parts[0..] == parts;
    JoinCons("HO", ["TARE"]);
  }

  lemma SpacedWords()
    ensures Words("H O TARE") == ["H", "O", "TARE"]
  {
    assert IsWord("H") && IsWord("O") && IsWord("TARE");
    ThreeWords("H", "O", "TARE");
    assert "H" + " " + "O" + " " + "TARE" == "H O TARE";
  }

  lemma GluedWords()
    ensures Words("HO TARE") == ["HO", "TARE"]
  {
    assert IsWord("HO") && IsWord("TARE");
    TwoWords("HO", "TARE");
    assert "HO" + " " + "TARE" == "HO TARE";
  }

  lemma TwoWords(a: string, b: string)
    requires IsWord(a) && IsWord(b)
    ensures Words(a + " " + b) == [a, b]
  {
    WordsOfJoin([a, b]);
    JoinCons(a, [b]);
  }

  lemma ThreeWords(a: string, b: string, c: string)
    requires IsWord(a) && IsWord(b) && IsWord(c)
    ensures Words(a + " " + b + " " + c) == [a, b, c]
  {
    WordsOfJoin([a, b, c]);
    JoinCons(b, [c]);
    JoinCons(a, [b, c]);
    assert [a] + [b, c] == [a, b, c];
    assert a + " " + b + " " + c == a + " " + (b + " " + c);
  }

  /** Stripping before classification hides the difference: the article type
      computed from the written and from the corrected cleaning agree. */
  lemma TypeUnaffectedByFix(text: string, translit: string -> string)
    ensures ArticleType(CleanTitle(text), translit) == ArticleType(CleanTitleFixed(text), translit)
  {
    var fixed := CleanTitleFixed(text);
    FixedIsStripped(text);
    StripLowerCommute(CleanTitle(text));
    StripLowerCommute(fixed);
    StripIdempotent(CleanTitle(text));
  }

  lemma StripIdempotent(s: string)
    ensures Strip(Strip(s)) == Strip(s)
  {
    var t := Strip(s);
    if |t| > 0 {
      StripUnchanged(t);
    }
  }
}
