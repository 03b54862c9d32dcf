/**
 * Names of the local audio file: the last path segment of the enclosure URL
 * on the feed branch, and the downloader's output template on the direct one.
 */
module Naming {
  import opened Wrappers
  import opened Text
  import opened Rss

  /** `parts[-1]` */
  function LastPart(parts: seq<string>): string
    requires |parts| >= 1
  {
    parts[|parts| - 1]
  }

  lemma LastPartOfCons(a: string, parts: seq<string>)
    requires |parts| >= 1
    ensures LastPart([a] + parts) == LastPart(parts)
  {
  }

  /** `url.split('/')[-1]` */
  function LastSegment(url: string): string {
    LastPart(Split(url, '/'))
  }

  /** `name` is the part of `url` after its last '/' (all of `url` when it has none). */
  predicate FinalSegment(url: string, name: string) {
    && '/' !in name
    && |name| <= |url| && url[|url| - |name|..] == name
    && (|name| == |url| || url[|url| - |name| - 1] == '/')
  }

  /**
   * The last segment is the longest suffix of the URL without a '/': the URL is
   * a prefix that is empty or ends in '/', followed by the segment.
   */
  lemma {:induction false} LastSegmentIsFinalSuffix(url: string)
    ensures FinalSegment(url, LastSegment(url))
    decreases |url|
  {
    if '/' in url {
      var i := IndexOf(url, '/');
      LastSegmentIsFinalSuffix(url[i + 1..]);
      LastSegmentAfterSlash(url);
      FinalSegmentAfterSlash(url, i, LastSegment(url[i + 1..]));
    } else {
      WholeIsFinalSegment(url);
    }
  }

  /** A URL without '/' is one segment. */
  lemma WholeIsFinalSegment(url: string)
    requires '/' !in url
    ensures LastSegment(url) == url && FinalSegment(url, url)
  {
    assert url[|url| - |url|..] == url;
  }

  /** Splitting drops everything up to the first '/'. */
  lemma LastSegmentAfterSlash(url: string)
    requires '/' in url
    ensures LastSegment(url) == LastSegment(url[IndexOf(url, '/') + 1..])
  {
    SplitUnfold(url, '/');
    var i := IndexOf(url, '/');
    LastPartOfCons(url[..i], Split(url[i + 1..], '/'));
  }

  /** The final segment of what follows a '/' is the final segment of the whole. */
  lemma FinalSegmentAfterSlash(url: string, i: int, name: string)
    requires 0 <= i < |url| && url[i] == '/'
    requires FinalSegment(url[i + 1..], name)
    ensures FinalSegment(url, name)
  {
    var rest := url[i + 1..];
    var n := |name|;
    assert url[|url| - n..] == rest[|rest| - n..];
    if n == |rest| {
      assert url[|url| - n - 1] == url[i];
    } else {
      assert url[|url| - n - 1] == rest[|rest| - n - 1];
    }
  }

  /** Every suffix longer than the final segment holds a '/'. */
  lemma FinalSegmentIsLongest(url: string, a: string)
    requires FinalSegment(url, a)
    ensures forall i :: 0 <= i < |url| - |a| ==> '/' in url[i..]
  {
    forall i | 0 <= i < |url| - |a| ensures '/' in url[i..] {
      assert url[i..][|url| - |a| - 1 - i] == url[|url| - |a| - 1];
    }
  }

  /** A URL has only one final segment, so the last segment is fixed by that description alone. */
  lemma FinalSegmentIsUnique(url: string, a: string, b: string)
    requires FinalSegment(url, a) && FinalSegment(url, b)
    ensures a == b
  {
    FinalSegmentIsLongest(url, a);
    FinalSegmentIsLongest(url, b);
  }

  /** A URL without '/' is its own last segment; a URL ending in '/' has an empty one. */
  lemma LastSegmentEdgeCases(url: string)
    ensures '/' !in url ==> LastSegment(url) == url
    ensures |url| > 0 && url[|url| - 1] == '/' ==> LastSegment(url) == ""
  {
    LastSegmentIsFinalSuffix(url);
  }

  /**
   * `str(Path(url.split('/')[-1]))`: the file the feed branch writes. `Path`
   * turns the empty name into ".".
   */
  function FeedAudioFile(url: string): (file: string)
    ensures file != "" && '/' !in file
    ensures url == "" || url[|url| - 1] == '/' ==> file == "."
    ensures url != "" && url[|url| - 1] != '/' ==>
      FinalSegment(url, file)
  {
    LastSegmentIsFinalSuffix(url);
    var name := LastSegment(url);
    if name == "" then "." else name
  }

  /** One piece of a %-format template: literal text or a `%(key)s` field. */
  datatype Piece = Lit(text: string) | Field(key: string)

  /** `OUT_TMPL`, "%(id)s.%(ext)s", as pieces. */
  const OutTmpl: seq<Piece> := [Field("id"), Lit("."), Field("ext")]

  /** The template text the pieces stand for (literals hold no '%'). */
  function Render(t: seq<Piece>): string {
    if t == [] then ""
    else
      (match t[0] case Lit(s) => s case Field(k) => "%(" + k + ")s") + Render(t[1..])
  }

  lemma OutTmplIsTheTemplate()
    ensures Render(OutTmpl) == "%(id)s.%(ext)s"
  {
    assert OutTmpl[1..][1..][1..] == [];
  }

  /** `t % info`: every field replaced by its value; the first missing key raises KeyError. */
  function Format(t: seq<Piece>, info: map<string, string>): (r: Result<string, Error>)
    ensures r.Success? <==> forall k :: 0 <= k < |t| && t[k].Field? ==> t[k].key in info
    ensures r.Failure? ==> r.error.KeyMissing? && r.error.key !in info
  {
    if t == [] then Success("")
    else
      var rest := Format(t[1..], info);
      match t[0]
      case Lit(s) => if rest.Success? then Success(s + rest.value) else rest
      case Field(k) =>
        if k !in info then Failure(KeyMissing(k))
        else if rest.Success? then Success(info[k] + rest.value) else rest
  }

  /** The direct branch's file name: `id + "." + ext`, or a KeyError for the first key missing. */
  lemma {:induction false} FormatOutTmpl(info: map<string, string>)
    ensures "id" in info && "ext" in info ==> Format(OutTmpl, info) == Success(info["id"] + "." + info["ext"])
    ensures "id" !in info ==> Format(OutTmpl, info) == Failure(KeyMissing("id"))
    ensures "id" in info && "ext" !in info ==> Format(OutTmpl, info) == Failure(KeyMissing("ext"))
  {
    assert OutTmpl[1..] == [Lit("."), Field("ext")];
    assert OutTmpl[1..][1..] == [Field("ext")];
    assert OutTmpl[1..][1..][1..] == [];
    assert [Field("ext")][1..] == [];
    assert Format([], info) == Success("");
    if "ext" in info {
      assert info["ext"] + "" == info["ext"];
    }
    var ext := Format([Field("ext")], info);
    assert ext == if "ext" in info then Success(info["ext"]) else Failure(KeyMissing("ext"));
    assert [Lit("."), Field("ext")][1..] == [Field("ext")];
    var dotExt := Format([Lit("."), Field("ext")], info);
    assert dotExt == if "ext" in info then Success("." + info["ext"]) else Failure(KeyMissing("ext"));
    if "id" in info && "ext" in info {
      assert Format(OutTmpl, info) == Success(info["id"] + ("." + info["ext"]));
      assert info["id"] + ("." + info["ext"]) == info["id"] + "." + info["ext"];
    }
  }
}
