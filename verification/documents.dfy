/** `extract_documents`: the links of an article's content that point at a
    document of a white-listed type, as (link text, URL) records in page
    order. A link is taken as the two strings the CSS selectors extract. */
module Documents {
  import opened Wrappers
  import opened Text

  const DocExtensions: seq<string> := [".docs", ".doc", ".txt", ".crt", ".xls", ".xml", ".pdf", ".docx", ".xlsx"]

  /** An `<a>` element: its text and its `href`, either possibly absent. */
  datatype Link = Link(text: Option<string>, href: Option<string>)

  /** One yielded record: `{'type': text, 'url': href}`. */
  datatype Doc = Doc(kind: Option<string>, url: string)

  /** `any(url.endswith(ext) for ext in DOC_EXTENSIONS)`: case-sensitive. */
  predicate HasDocExtension(url: string) {
    exists k :: 0 <= k < |DocExtensions| && EndsWith(url, DocExtensions[k])
  }

  /** The generator drained into a list. A link without `href` makes
      `url.endswith` raise `AttributeError` on `None`. */
  function ExtractDocuments(links: seq<Link>): (r: Result<seq<Doc>, Raised>)
    ensures r.Success? <==> forall k :: 0 <= k < |links| ==> links[k].href.Some?
    ensures r.Failure? ==> r.error == AttributeError
    ensures r.Success? ==> |r.value| <= |links|
    ensures r.Success? ==> forall k :: 0 <= k < |r.value| ==> HasDocExtension(r.value[k].url)
    decreases |links|
  {
    if |links| == 0 then Success([])
    else
      match links[0].href
      case None => Failure(AttributeError)
      case Some(url) =>
        var rest := ExtractDocuments(links[1..]);
        assert forall k :: 1 <= k < |links| ==> links[k] == links[1..][k - 1];
        if rest.Failure? then rest
        else
          var here := if HasDocExtension(url) then [Doc(links[0].text, url)] else [];
          var r := here + rest.value;
          assert forall k :: |here| <= k < |r| ==> r[k] == rest.value[k - |here|];
          Success(r)
  }

  /** A document record is produced exactly for each link that has an
      `href` with a white-listed ending. */
  lemma {:induction false} ExtractMembership(links: seq<Link>, d: Doc)
    requires ExtractDocuments(links).Success?
    ensures d in ExtractDocuments(links).value <==>
      HasDocExtension(d.url) && exists k :: 0 <= k < |links| && links[k] == Link(d.kind, Some(d.url))
    decreases |links|
  {
    if |links| > 0 {
      ExtractMembership(links[1..], d);
      assert forall k :: 1 <= k < |links| ==> links[k] == links[1..][k - 1];
      if exists k :: 1 <= k < |links| && links[k] == Link(d.kind, Some(d.url)) {
        var k :| 1 <= k < |links| && links[k] == Link(d.kind, Some(d.url));
        assert links[1..][k - 1] == Link(d.kind, Some(d.url));
      }
    }
  }

  /** Extraction works link by link: the records of two runs of links are
      those of each run, in order. */
  lemma {:induction false} ExtractAppend(a: seq<Link>, b: seq<Link>)
    requires ExtractDocuments(a).Success? && ExtractDocuments(b).Success?
    ensures ExtractDocuments(a + b) == Success(ExtractDocuments(a).value + ExtractDocuments(b).value)
    decreases |a|
  {
    if |a| == 0 {
      assert a + b == b;
      assert ExtractDocuments(a).value == [];
      assert [] + ExtractDocuments(b).value == ExtractDocuments(b).value;
    } else {
      var url := a[0].href.value;
      var here := if HasDocExtension(url) then [Doc(a[0].text, url)] else [];
      var ra, rb := ExtractDocuments(a[1..]), ExtractDocuments(b);
      assert ra.Success? && ExtractDocuments(a).value == here + ra.value;
      ExtractAppend(a[1..], b);
      var ab := a + b;
      assert ab[0] == a[0];
      assert ab[1..] == a[1..] + b;
      assert ExtractDocuments(ab) == Success(here + (ra.value + rb.value));
      assert here + (ra.value + rb.value) == (here + ra.value) + rb.value;
    }
  }

  /** The links a list of records came from. */
  function AsLinks(docs: seq<Doc>): (links: seq<Link>)
    ensures |links| == |docs|
    ensures forall k :: 0 <= k < |docs| ==> links[k] == Link(docs[k].kind, Some(docs[k].url))
  {
    seq(|docs|, k requires 0 <= k < |docs| => Link(docs[k].kind, Some(docs[k].url)))
  }

  /** Extracting from the links of extracted records gives them back: the
      filter keeps everything it has already kept. */
  lemma {:induction false} ExtractIdempotent(docs: seq<Doc>)
    requires forall k :: 0 <= k < |docs| ==> HasDocExtension(docs[k].url)
    ensures ExtractDocuments(AsLinks(docs)) == Success(docs)
    decreases |docs|
  {
    if |docs| > 0 {
      ExtractIdempotent(docs[1..]);
      assert AsLinks(docs)[1..] == AsLinks(docs[1..]);
      assert [docs[0]] + docs[1..] == docs;
    }
  }

  /** The comparison is case-sensitive: an upper-case ending is not kept. */
  lemma UpperCaseEndingRejected()
    ensures !HasDocExtension("report.PDF")
  {
    var u := "report.PDF";
    assert u[|u| - 3..] == "PDF";
    assert u[|u| - 4..] == ".PDF";
    assert u[|u| - 5..] == "t.PDF";
  }
}
