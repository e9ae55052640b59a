/**
  The retrieval side of the chatbot engine: the `retrieve_medical_context`
  tool, which turns the documents a similarity search returned into one
  context string for the agent, and `get_relevant_sources`, which turns them
  into short previews for the user interface. The search itself is external:
  its outcome is an input here.
 */
module Retrieval {
  import opened Options
  import opened Text

  /** A retrieved passage: its `metadata["source"]`, if any, and its `page_content`. */
  datatype Doc = Doc(source: Option<string>, pageContent: string)

  /** What the vector store's similarity search did: returned documents, or raised with a message. */
  datatype Search = Found(docs: seq<Doc>) | SearchFailed(message: string)

  /** One preview row of `get_relevant_sources`. */
  datatype SourceEntry = SourceEntry(source: string, content: string)

  const Unavailable := "Knowledge base is not available."
  const NothingFound := "No relevant medical information " + "found in the knowledge base."
  const ErrorPrefix := "Error accessing knowledge base: "
  const DocSeparator := "\n\n"
  const SourceLabel := "Source: "
  const ContentLabel := "\nContent: "
  const UnknownSource := "Unknown"

  /** Number of characters of a passage shown in a preview. */
  const PreviewLength := 200
  const Ellipsis := "..."

  /** `doc.metadata.get('source', 'Unknown')`. */
  function SourceName(d: Doc): string {
    d.source.GetOr(UnknownSource)
  }

  /**
    One passage as the tool formats it for the agent: labelled with the
    document's source name, and ending with its full page content.
   */
  function Describe(d: Doc): (r: string)
    ensures SourceLabel <= r
    ensures SourceLabel + SourceName(d) + ContentLabel <= r
    ensures |d.pageContent| <= |r| && r[|r| - |d.pageContent|..] == d.pageContent
    ensures |r| == |SourceLabel| + |SourceName(d)| + |ContentLabel| + |d.pageContent|
  {
    SourceLabel + SourceName(d) + ContentLabel + d.pageContent
  }

  /** The formatted passages, in retrieval order. */
  function DescribeAll(docs: seq<Doc>): (parts: seq<string>)
    ensures |parts| == |docs|
    ensures forall i :: 0 <= i < |docs| ==> parts[i] == Describe(docs[i])
  {
    if |docs| == 0 then []
    else DescribeAll(docs[..|docs| - 1]) + [Describe(docs[|docs| - 1])]
  }

  /**
    `retrieve_medical_context`: the context text for the agent and the
    documents handed back as the tool's artifact.
   */
  function RetrieveContext(storeAvailable: bool, search: Search): (r: (string, seq<Doc>))
    ensures r.1 != [] ==> storeAvailable && search.Found? && r.1 == search.docs
    ensures !storeAvailable ==> r == (Unavailable, [])
    ensures storeAvailable && search.SearchFailed? ==> r == (ErrorPrefix + search.message, [])
    ensures storeAvailable && search == Found([]) ==> r == (NothingFound, [])
  {
    if !storeAvailable then (Unavailable, [])
    else match search
      case SearchFailed(message) => (ErrorPrefix + message, [])
      case Found(docs) =>
        if |docs| == 0 then (NothingFound, [])
        else (Join(DocSeparator, DescribeAll(docs)), docs)
  }

  /**
    With documents found, the context text lists every one of them in order:
    it starts with the first passage, ends with the last, and one more document
    adds exactly one separator and its own passage at the end. The artifact is
    the documents themselves.
   */
  lemma ContextListsDocsInOrder(docs: seq<Doc>, d: Doc)
    requires |docs| > 0
    ensures RetrieveContext(true, Found(docs)).1 == docs
    ensures Describe(docs[0]) <= RetrieveContext(true, Found(docs)).0
    ensures RetrieveContext(true, Found([d])).0 == Describe(d)
    ensures RetrieveContext(true, Found(docs + [d])).0
         == RetrieveContext(true, Found(docs)).0 + DocSeparator + Describe(d)
  {
    JoinEnds(DocSeparator, DescribeAll(docs));
    var ds := DescribeAll(docs + [d]);
    assert ds == DescribeAll(docs) + [Describe(d)];
    assert ds[..|ds| - 1] == DescribeAll(docs);
  }

  /**
    The three failure outcomes and success are told apart by their text: a
    successful context starts with `Source: `, the fixed messages do not, and
    the three fixed messages differ from one another.
   */
  lemma ContextOutcomesAreDistinct(search: Search)
    ensures search.Found? && search.docs != [] ==> SourceLabel <= RetrieveContext(true, search).0
    ensures !(SourceLabel <= Unavailable) && !(SourceLabel <= NothingFound)
    ensures forall m :: !(SourceLabel <= ErrorPrefix + m)
    ensures Unavailable != NothingFound
    ensures forall m :: ErrorPrefix + m != Unavailable && ErrorPrefix + m != NothingFound
  {
    if search.Found? && search.docs != [] {
      JoinEnds(DocSeparator, DescribeAll(search.docs));
    }
    assert Unavailable[0] != SourceLabel[0];
    assert NothingFound[0] == 'N' && SourceLabel[0] == 'S';
    assert ErrorPrefix[0] != SourceLabel[0];
    forall m ensures ErrorPrefix + m != Unavailable && ErrorPrefix + m != NothingFound {
      assert (ErrorPrefix + m)[0] == 'E' && Unavailable[0] == 'K' && NothingFound[0] == 'N';
    }
  }

  /** A passage as shown in a preview: cut to 200 characters, with `...` appended when cut. */
  function Preview(content: string): (r: string)
    ensures |content| <= PreviewLength ==> r == content
    ensures |content| > PreviewLength ==> |r| == PreviewLength + |Ellipsis|
    ensures |r| <= PreviewLength + |Ellipsis|
    ensures |content| > PreviewLength ==> content[..PreviewLength] <= r && r[PreviewLength..] == Ellipsis
  {
    if |content| > PreviewLength then content[..PreviewLength] + Ellipsis else content
  }

  /** A preview of a preview is the same preview. */
  lemma PreviewIsIdempotent(content: string)
    ensures Preview(Preview(content)) == Preview(content)
  {
    if |content| > PreviewLength {
      var p := Preview(content);
      assert p[..PreviewLength] == content[..PreviewLength];
    }
  }

  /** The preview rows of `docs`, one per document, in order. */
  function Previews(docs: seq<Doc>): (rows: seq<SourceEntry>)
    ensures |rows| == |docs|
    ensures forall i :: 0 <= i < |docs| ==>
              rows[i] == SourceEntry(SourceName(docs[i]), Preview(docs[i].pageContent))
  {
    if |docs| == 0 then []
    else Previews(docs[..|docs| - 1]) + [SourceEntry(SourceName(docs[|docs| - 1]), Preview(docs[|docs| - 1].pageContent))]
  }

  /**
    `get_relevant_sources`: the preview rows, or none when the search raised
    (a missing vector store raises too, and is caught the same way).
   */
  function RelevantSources(storeAvailable: bool, search: Search): (rows: seq<SourceEntry>)
    ensures !storeAvailable || search.SearchFailed? ==> rows == []
    ensures storeAvailable && search.Found? ==> |rows| == |search.docs|
    ensures storeAvailable && search.Found? ==> forall i :: 0 <= i < |rows| ==>
              rows[i].source == SourceName(search.docs[i])
              && |rows[i].content| <= PreviewLength + |Ellipsis|
              && (|search.docs[i].pageContent| <= PreviewLength ==> rows[i].content == search.docs[i].pageContent)
              && (|search.docs[i].pageContent| > PreviewLength ==>
                    |rows[i].content| == PreviewLength + |Ellipsis|
                    && search.docs[i].pageContent[..PreviewLength] <= rows[i].content)
  {
    if !storeAvailable then []
    else match search
    case SearchFailed(_) => []
    case Found(docs) => Previews(docs)
  }

  /**
    For the same search, the preview rows and the context the agent sees
    cover the same documents in the same order: row `i` names the source that
    the `i`-th passage of the context is labelled with.
   */
  lemma SourcesMatchContext(docs: seq<Doc>)
    requires |docs| > 0
    ensures var rows := RelevantSources(true, Found(docs));
            var artifact := RetrieveContext(true, Found(docs)).1;
            && |rows| == |artifact|
            && forall i :: 0 <= i < |rows| ==>
                 SourceLabel + rows[i].source + ContentLabel <= Describe(artifact[i])
  {
  }
}
