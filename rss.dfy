/**
 * Resolution of an RSS feed entry to its audio enclosure URL: one title tag
 * anywhere in the feed must match the pattern, and exactly one audio
 * enclosure must follow it among its siblings.
 */
module Rss {
  import opened Wrappers
  import opened Text
  import opened Soup

  /** The exceptions resolution can raise. */
  datatype Error =
    | NotFound(name: string)   // raised by raise_if_not_single for an empty result
    | Multiple(name: string)   // raised by raise_if_not_single for more than one result
    | KeyMissing(key: string)  // a KeyError on a dictionary lookup

  /** The text the exception carries. */
  function Message(e: Error): (m: string)
    ensures e.NotFound? ==> IsPrefix(e.name, m) && m[|e.name|..] == " not found in RSS feed"
    ensures e.Multiple? ==> IsPrefix("Multiple ", m) && m[9..] == e.name + " found in RSS feed"
  {
    match e
    case NotFound(name) => name + " not found in RSS feed"
    case Multiple(name) => "Multiple " + name + " found in RSS feed"
    case KeyMissing(key) => "'" + key + "'"
  }

  /** Within one kind of error the message names the subject: two equal messages of the same kind carry the same name. */
  lemma MessageIdentifiesName(e1: Error, e2: Error)
    requires e1.NotFound? == e2.NotFound? && e1.Multiple? == e2.Multiple?
    requires !e1.KeyMissing? && !e2.KeyMissing?
    requires Message(e1) == Message(e2)
    ensures e1 == e2
  {
    var m := Message(e1);
    if e1.NotFound? {
      assert |e1.name| == |m| - |" not found in RSS feed"| == |e2.name|;
      assert e1.name == m[..|e1.name|] == e2.name;
    } else {
      assert m[9..] == e1.name + " found in RSS feed" == e2.name + " found in RSS feed";
      assert |e1.name| == |e2.name|;
      assert e1.name == m[9..][..|e1.name|] == e2.name;
    }
  }

  /** Across kinds the texts can coincide, so only the kind and the text together identify the name. */
  lemma MessagesCollideAcrossKinds()
    ensures Message(NotFound("Multiple X")) == Message(Multiple("X not"))
  {
    var whole := "Multiple X not found in RSS feed";
    assert "Multiple X" + " not found in RSS feed" == whole;
    assert "Multiple " + "X not" + " found in RSS feed" == whole;
  }

  /** `raise_if_not_single`: `None` when it returns normally, otherwise the exception it raises. */
  function RaiseIfNotSingle<T>(results: seq<T>, name: string): (r: Option<Error>)
    ensures r == None <==> |results| == 1
    ensures |results| == 0 <==> r == Some(NotFound(name))
    ensures |results| > 1 <==> r == Some(Multiple(name))
  {
    if |results| == 0 then Some(NotFound(name))
    else if |results| > 1 then Some(Multiple(name))
    else None
  }

  /** `find_all('title', string=re.compile(title_text))` */
  function TitleFilter(titleText: string): Strainer {
    Strainer("title", map[], Some(titleText))
  }

  /** `find_next_siblings('enclosure', type=re.compile('audio'))` */
  function AudioEnclosureFilter(): Strainer {
    Strainer("enclosure", map["type" := "audio"], None)
  }

  /** `parse_rss` on the parsed feed: the `url` attribute of the entry's audio enclosure. */
  function ParseRss(doc: Document, titleText: string): (r: Result<string, Error>)
    ensures r.Failure? ==> r.error in {NotFound(titleText), Multiple(titleText),
                                         NotFound("enclosure"), Multiple("enclosure"), KeyMissing("url")}
  {
    var titles := FindAll(doc, TitleFilter(titleText));
    match RaiseIfNotSingle(titles, titleText)
    case Some(e) => Failure(e)
    case None => EnclosureUrl(doc, titles[0])
  }

  /** The rest of `parse_rss` once the title at `title` is found. */
  function EnclosureUrl(doc: Document, title: Path): (r: Result<string, Error>)
    requires ValidPath(doc, title)
    ensures r.Failure? ==> r.error in {NotFound("enclosure"), Multiple("enclosure"), KeyMissing("url")}
  {
    var enclosures := FindNextSiblings(doc, title, AudioEnclosureFilter());
    match RaiseIfNotSingle(enclosures, "enclosure")
    case Some(e) => Failure(e)
    case None =>
      var enclosure := NodeAt(doc, enclosures[0]);
      if "url" in enclosure.attrs then Success(enclosure.attrs["url"])
      else Failure(KeyMissing("url"))
  }

  // ---------------------------------------------------------------------------
  // The resolver's behaviour, stated independently of bs4's filters.

  /** A title tag whose text contains the pattern. */
  predicate IsTitleFor(n: Node, pattern: string) {
    n.name == "title" && n.text.Some? && Contains(n.text.value, pattern)
  }

  /** An enclosure tag whose `type` attribute contains "audio" anywhere. */
  predicate IsAudioEnclosure(n: Node) {
    n.name == "enclosure" && "type" in n.attrs && Contains(n.attrs["type"], "audio")
  }

  /** The tag at `p` is a title matching the pattern. */
  predicate TitleAt(doc: Document, pattern: string, p: Path) {
    ValidPath(doc, p) && IsTitleFor(NodeAt(doc, p), pattern)
  }

  /** `p` is the one matching title of the whole document. */
  ghost predicate OnlyTitleAt(doc: Document, pattern: string, p: Path) {
    TitleAt(doc, pattern, p) && forall q :: TitleAt(doc, pattern, q) ==> q == p
  }

  /** Sibling `j` lies after sibling `i` and is an audio enclosure. */
  predicate EnclosureAfter(sibs: seq<Node>, i: nat, j: int) {
    i < j < |sibs| && IsAudioEnclosure(sibs[j])
  }

  /** Sibling `j` is the only audio enclosure after sibling `i`. */
  ghost predicate OnlyEnclosureAfter(sibs: seq<Node>, i: nat, j: int) {
    EnclosureAfter(sibs, i, j) && forall k :: EnclosureAfter(sibs, i, k) ==> k == j
  }

  lemma FiltersMeanWhatTheySay(n: Node, pattern: string)
    ensures Satisfies(n, TitleFilter(pattern)) <==> IsTitleFor(n, pattern)
    ensures Satisfies(n, AudioEnclosureFilter()) <==> IsAudioEnclosure(n)
  {
    assert forall k :: k in AudioEnclosureFilter().attrs ==> k == "type";
  }

  /** The title lookup finds exactly the matching titles, each once. */
  lemma TitlesFound(doc: Document, pattern: string)
    ensures var titles := FindAll(doc, TitleFilter(pattern));
      && (forall q :: q in titles <==> TitleAt(doc, pattern, q))
      && (forall a, b :: 0 <= a < b < |titles| ==> titles[a] != titles[b])
      && (titles == [] <==> forall q :: !TitleAt(doc, pattern, q))
  {
    var titles := FindAll(doc, TitleFilter(pattern));
    OrderedIsDistinct(titles);
    forall q ensures q in titles <==> TitleAt(doc, pattern, q) {
      if ValidPath(doc, q) {
        FiltersMeanWhatTheySay(NodeAt(doc, q), pattern);
      }
    }
    if titles != [] {
      assert titles[0] in titles;
    }
  }

  /** The enclosure lookup from `p` finds exactly the audio enclosures after it, each once. */
  lemma EnclosuresFound(doc: Document, p: Path)
    requires ValidPath(doc, p)
    ensures var encs := FindNextSiblings(doc, p, AudioEnclosureFilter());
      && (forall k :: 0 <= k < |encs| ==>
           encs[k] == Parent(p) + [Last(encs[k])]
           && EnclosureAfter(SiblingList(doc, p), Last(p), Last(encs[k]))
           && NodeAt(doc, encs[k]) == SiblingList(doc, p)[Last(encs[k])])
      && (forall j :: EnclosureAfter(SiblingList(doc, p), Last(p), j) ==> Parent(p) + [j] in encs)
      && (forall a, b :: 0 <= a < b < |encs| ==> encs[a] != encs[b])
      && (encs == [] <==> forall j :: !EnclosureAfter(SiblingList(doc, p), Last(p), j))
  {
    var encs := FindNextSiblings(doc, p, AudioEnclosureFilter());
    var sibs := SiblingList(doc, p);
    forall k | 0 <= k < |encs|
      ensures encs[k] == Parent(p) + [Last(encs[k])]
      ensures EnclosureAfter(sibs, Last(p), Last(encs[k]))
      ensures NodeAt(doc, encs[k]) == sibs[Last(encs[k])]
    {
      var q := encs[k];
      assert q == Parent(q) + [Last(q)];
      FiltersMeanWhatTheySay(NodeAt(doc, q), "");
    }
    forall j | EnclosureAfter(sibs, Last(p), j) ensures Parent(p) + [j] in encs {
      FiltersMeanWhatTheySay(sibs[j], "");
    }
    if encs != [] {
      assert EnclosureAfter(sibs, Last(p), Last(encs[0]));
    }
  }

  /** No matching title anywhere: "<pattern> not found", whatever the enclosures. */
  lemma {:induction false} TitleNotFound(doc: Document, pattern: string)
    requires forall q :: !TitleAt(doc, pattern, q)
    ensures ParseRss(doc, pattern) == Failure(NotFound(pattern))
  {
    TitlesFound(doc, pattern);
  }

  /** Two matching titles anywhere: "Multiple <pattern>", whatever the enclosures. */
  lemma {:induction false} TitleAmbiguous(doc: Document, pattern: string, p1: Path, p2: Path)
    requires TitleAt(doc, pattern, p1) && TitleAt(doc, pattern, p2) && p1 != p2
    ensures ParseRss(doc, pattern) == Failure(Multiple(pattern))
  {
    var titles := FindAll(doc, TitleFilter(pattern));
    TitlesFound(doc, pattern);
    assert p1 in titles && p2 in titles;
    assert |titles| > 1;
  }

  lemma {:induction false} OnlyTitleIsFound(doc: Document, pattern: string, p: Path)
    requires OnlyTitleAt(doc, pattern, p)
    ensures FindAll(doc, TitleFilter(pattern)) == [p]
    ensures ParseRss(doc, pattern) == EnclosureUrl(doc, p)
  {
    var titles := FindAll(doc, TitleFilter(pattern));
    TitlesFound(doc, pattern);
    assert p in titles;
    assert forall k :: 0 <= k < |titles| ==> titles[k] in titles;
    assert forall k :: 0 <= k < |titles| ==> titles[k] == p;
    DistinctConstant(titles, p);
  }

  /** The one matching title is followed by no audio enclosure: "enclosure not found". */
  lemma {:induction false} EnclosureNotFound(doc: Document, pattern: string, p: Path)
    requires OnlyTitleAt(doc, pattern, p)
    requires forall j :: !EnclosureAfter(SiblingList(doc, p), Last(p), j)
    ensures ParseRss(doc, pattern) == Failure(NotFound("enclosure"))
  {
    OnlyTitleIsFound(doc, pattern, p);
    var encs := FindNextSiblings(doc, p, AudioEnclosureFilter());
    EnclosuresFound(doc, p);
  }

  /** The one matching title is followed by two audio enclosures: "Multiple enclosure", not the first. */
  lemma {:induction false} EnclosureAmbiguous(doc: Document, pattern: string, p: Path, j1: int, j2: int)
    requires OnlyTitleAt(doc, pattern, p)
    requires EnclosureAfter(SiblingList(doc, p), Last(p), j1)
    requires EnclosureAfter(SiblingList(doc, p), Last(p), j2)
    requires j1 != j2
    ensures ParseRss(doc, pattern) == Failure(Multiple("enclosure"))
  {
    OnlyTitleIsFound(doc, pattern, p);
    var encs := FindNextSiblings(doc, p, AudioEnclosureFilter());
    EnclosuresFound(doc, p);
    assert Parent(p) + [j1] in encs && Parent(p) + [j2] in encs;
    assert Parent(p) + [j1] != Parent(p) + [j2] by {
      assert Last(Parent(p) + [j1]) == j1;
    }
    assert |encs| > 1;
  }

  /** The one title followed by the one audio enclosure: that enclosure's `url`, verbatim. */
  lemma {:induction false} EnclosureFound(doc: Document, pattern: string, p: Path, j: nat)
    requires OnlyTitleAt(doc, pattern, p)
    requires OnlyEnclosureAfter(SiblingList(doc, p), Last(p), j)
    ensures var enc := SiblingList(doc, p)[j];
      ParseRss(doc, pattern) ==
        if "url" in enc.attrs then Success(enc.attrs["url"]) else Failure(KeyMissing("url"))
  {
    OnlyTitleIsFound(doc, pattern, p);
    var encs := FindNextSiblings(doc, p, AudioEnclosureFilter());
    EnclosuresFound(doc, p);
    assert Parent(p) + [j] in encs;
    assert forall k :: 0 <= k < |encs| ==> encs[k] == Parent(p) + [j];
    DistinctConstant(encs, Parent(p) + [j]);
  }

  /** Success happens only for a unique title followed by a unique audio enclosure carrying that `url`. */
  lemma {:induction false} SuccessMeansUnique(doc: Document, pattern: string, url: string)
    requires ParseRss(doc, pattern) == Success(url)
    ensures exists p, j :: Resolves(doc, pattern, p, j, url)
  {
    var titles := FindAll(doc, TitleFilter(pattern));
    TitlesFound(doc, pattern);
    var p := titles[0];
    assert OnlyTitleAt(doc, pattern, p);
    var encs := FindNextSiblings(doc, p, AudioEnclosureFilter());
    EnclosuresFound(doc, p);
    var j := Last(encs[0]);
    var sibs := SiblingList(doc, p);
    forall k | EnclosureAfter(sibs, Last(p), k) ensures k == j {
      assert Parent(p) + [k] in encs;
      assert Last(Parent(p) + [k]) == k;
    }
    assert Resolves(doc, pattern, p, j, url);
  }

  /** The title at `p` and the enclosure at sibling `j` are the unique ones and the enclosure's `url` is `url`. */
  ghost predicate Resolves(doc: Document, pattern: string, p: Path, j: nat, url: string) {
    && OnlyTitleAt(doc, pattern, p)
    && OnlyEnclosureAfter(SiblingList(doc, p), Last(p), j)
    && "url" in SiblingList(doc, p)[j].attrs
    && SiblingList(doc, p)[j].attrs["url"] == url
  }
}
