/** Guessing the kind of a legislative initiative from its title: the ordered
    `TYPE_RULES` table tried first match wins (`guess_initiative_type`), and
    the cut of the lowered, stripped title at its first "pentru" or "privind"
    that `parse_article` makes before classifying. */
module Classify {
  import opened Wrappers
  import opened Text
  import opened Diacritics

  /** `(search string, initiative type)` pairs, tried in order. */
  const TypeRules: seq<(string, string)> := [
    ("lege", "LEGE"),
    ("hotarare de guvern", "HG"),
    ("hotarare a guvernului", "HG"),
    ("hotarare", "HG"),
    ("hg", "HG"),
    ("ordonanta de guvern", "OG"),
    ("ordonanta de urgenta", "OUG"),
    ("ordin de ministru", "OM"),
    ("ordinul", "OM")
  ]

  const Other := "OTHER"

  /** The index of the first rule whose search string occurs in `t`. */
  function FirstMatch(t: string, rules: seq<(string, string)>, from: nat): (r: Option<nat>)
    requires from <= |rules|
    ensures r.Some? ==> from <= r.value < |rules| && Contains(t, rules[r.value].0)
    ensures forall j :: from <= j < |rules| && (r.None? || j < r.value) ==> !Contains(t, rules[j].0)
    decreases |rules| - from
  {
    if from == |rules| then None
    else if Contains(t, rules[from].0) then Some(from)
    else FirstMatch(t, rules, from + 1)
  }

  /** The `for ... else` loop of `guess_initiative_type` on already
      normalised text. */
  function Classify(t: string, rules: seq<(string, string)>): (r: string)
    ensures r == Other || exists k :: 0 <= k < |rules| && r == rules[k].1
  {
    match FirstMatch(t, rules, 0)
    case Some(k) => rules[k].1
    case None => Other
  }

  /** `guess_initiative_type(text, rules)`: diacritics are stripped first;
      `translit` stands for `unidecode`. */
  function GuessInitiativeType(text: string, rules: seq<(string, string)>, translit: string -> string): string {
    Classify(StripDiacritics(text, translit), rules)
  }

  /** The type is that of the first rule, in list order, whose search string
      occurs in the text. */
  lemma ClassifyFirstRule(t: string, rules: seq<(string, string)>, k: nat)
    requires k < |rules| && Contains(t, rules[k].0)
    requires forall j :: 0 <= j < k ==> !Contains(t, rules[j].0)
    ensures Classify(t, rules) == rules[k].1
  {
    var m := FirstMatch(t, rules, 0);
    assert m.Some? && m.value == k;
  }

  /** With the scraper's table, "OTHER" comes out exactly when no search
      string occurs. */
  lemma ClassifyOtherIff(t: string)
    ensures Classify(t, TypeRules) == Other <==> forall k :: 0 <= k < |TypeRules| ==> !Contains(t, TypeRules[k].0)
  {
    var m := FirstMatch(t, TypeRules, 0);
    if m.Some? {
      assert TypeRules[m.value].1 != Other;
    }
  }

  /** With the scraper's table the result is one of six labels. */
  lemma ClassifyLabels(t: string)
    ensures Classify(t, TypeRules) in {"OTHER", "LEGE", "HG", "OG", "OUG", "OM"}
  {
    var m := FirstMatch(t, TypeRules, 0);
    if m.Some? {
      var k := m.value;
      assert k in {0, 1, 2, 3, 4, 5, 6, 7, 8};
    }
  }

  /** A search string occurring inside an occurring string occurs too. */
  lemma ContainsTransitive(t: string, p: string, q: string, i: nat)
    requires Contains(t, p) && OccursAt(p, q, i)
    ensures Contains(t, q)
  {
    ContainsIff(t, p);
    var k :| OccursAt(t, p, k);
    assert forall j :: 0 <= j < |q| ==> t[k + i + j] == p[i + j] == q[j];
    assert OccursAt(t, q, k + i);
    ContainsIff(t, q);
  }

  /** "hotarare de guvern" and "hotarare a guvernului" never decide: any text
      containing them also contains "hotarare", which follows with the same
      type, so the table without them classifies every text alike. */
  lemma HotarareRulesRedundant(t: string)
    ensures Classify(t, TypeRules) == Classify(t, TypeRules[..1] + TypeRules[3..])
  {
    if Contains(t, "lege") {
      ClassifyFirstRule(t, TypeRules, 0);
      ClassifyFirstRule(t, TypeRules[..1] + TypeRules[3..], 0);
    } else if Contains(t, TypeRules[1].0) || Contains(t, TypeRules[2].0) || Contains(t, "hotarare") {
      if Contains(t, TypeRules[1].0) {
        assert OccursAt(TypeRules[1].0, "hotarare", 0);
        ContainsTransitive(t, TypeRules[1].0, "hotarare", 0);
      } else if Contains(t, TypeRules[2].0) {
        assert OccursAt(TypeRules[2].0, "hotarare", 0);
        ContainsTransitive(t, TypeRules[2].0, "hotarare", 0);
      }
      HotarareDecides(t);
    } else {
      NoHotarare(t);
    }
  }

  /** Without "lege", any "hotarare" makes both tables answer "HG". */
  lemma HotarareDecides(t: string)
    requires !Contains(t, "lege") && Contains(t, "hotarare")
    ensures Classify(t, TypeRules) == "HG" && Classify(t, TypeRules[..1] + TypeRules[3..]) == "HG"
  {
    var k :| 0 <= k < 4 && Contains(t, TypeRules[k].0) && forall j :: 0 <= j < k ==> !Contains(t, TypeRules[j].0);
    ClassifyFirstRule(t, TypeRules, k);
    ClassifyFirstRule(t, TypeRules[..1] + TypeRules[3..], 1);
  }

  /** Without any of the first four search strings, both tables consult the
      same remaining rules in the same order. */
  lemma NoHotarare(t: string)
    requires forall j :: 0 <= j < 4 ==> !Contains(t, TypeRules[j].0)
    ensures Classify(t, TypeRules) == Classify(t, TypeRules[..1] + TypeRules[3..])
  {
    var short := TypeRules[..1] + TypeRules[3..];
    assert forall j :: 1 <= j < |short| ==> short[j] == TypeRules[j + 2];
    var m := FirstMatch(t, TypeRules, 0);
    if m.Some? {
      ClassifyFirstRule(t, short, m.value - 2);
    } else {
      assert FirstMatch(t, short, 0).None?;
    }
  }

  // ------------------------------------------------------- stop-word cut

  /** Where `re.search(r'(pentru|privind)', t)` matches: the leftmost
      position where either word starts. */
  function StopIndex(t: string): (r: Option<nat>)
    ensures r.Some? ==> OccursAt(t, "pentru", r.value) || OccursAt(t, "privind", r.value)
    ensures forall k :: 0 <= k && (r.None? || k < r.value) ==> !OccursAt(t, "pentru", k) && !OccursAt(t, "privind", k)
  {
    var a, b := FindFrom(t, "pentru", 0), FindFrom(t, "privind", 0);
    if a.None? then b
    else if b.None? then a
    else if a.value <= b.value then a
    else b
  }

  /** The type `parse_article` assigns: "OTHER" without a stop word,
      otherwise the guess on the lowered, stripped title before it. */
  function ArticleType(title: string, translit: string -> string): string {
    var t := Strip(Lower(title));
    match StopIndex(t)
    case None => Other
    case Some(k) => GuessInitiativeType(t[..k], TypeRules, translit)
  }

  /** A title with neither stop word is "OTHER", whatever rule words it holds. */
  lemma ArticleTypeNoStopWord(title: string, translit: string -> string)
    requires var t := Strip(Lower(title)); !Contains(t, "pentru") && !Contains(t, "privind")
    ensures ArticleType(title, translit) == Other
  {
    var t := Strip(Lower(title));
    ContainsIff(t, "pentru");
    ContainsIff(t, "privind");
  }

  /** With a stop word, only the text before its first occurrence is
      classified: the type is the guess on that prefix. */
  lemma ArticleTypeUsesPrefix(title: string, translit: string -> string, k: nat)
    requires var t := Strip(Lower(title));
      && (OccursAt(t, "pentru", k) || OccursAt(t, "privind", k))
      && forall j :: 0 <= j < k ==> !OccursAt(t, "pentru", j) && !OccursAt(t, "privind", j)
    ensures ArticleType(title, translit) == GuessInitiativeType(Strip(Lower(title))[..k], TypeRules, translit)
  {
    var t := Strip(Lower(title));
    var r := StopIndex(t);
    assert r.Some?;
    assert !(r.value < k);
    assert r.value == k;
  }
}
